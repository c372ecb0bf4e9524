/** What `path.Clean` and the checks around it mean, without their own loops: components that
    cancel, paths that escape, and the space around a request's text. */
module PathCleaning {
  import opened Paths

  /** A component that names something. */
  predicate Plain(name: string)
  {
    name != "" && name != "." && name != ".." && '/' !in name
  }

  lemma {:induction false} ReduceAppend(a: seq<string>, b: seq<string>, rooted: bool, kept: seq<string>)
    ensures Reduce(a + b, rooted, kept) == Reduce(b, rooted, Reduce(a, rooted, kept))
    decreases |a|
  {
    if a == [] {
      assert a + b == b;
    } else {
      assert (a + b)[1..] == a[1..] + b;
      ReduceAppend(a[1..], b, rooted, Push(kept, a[0], rooted));
    }
  }

  lemma Inserted(a: seq<string>, middle: seq<string>, b: seq<string>, rooted: bool, kept: seq<string>)
    requires Reduce(middle, rooted, Reduce(a, rooted, kept)) == Reduce(a, rooted, kept)
    ensures Reduce(a + middle + b, rooted, kept) == Reduce(a + b, rooted, kept)
  {
    assert a + middle + b == a + (middle + b);
    ReduceAppend(a, middle + b, rooted, kept);
    ReduceAppend(middle, b, rooted, Reduce(a, rooted, kept));
    ReduceAppend(a, b, rooted, kept);
  }

  /** A name and the ".." behind it cancel, wherever they stand. */
  lemma NameThenUpCancels(a: seq<string>, name: string, b: seq<string>, rooted: bool, kept: seq<string>)
    requires Plain(name)
    ensures Reduce(a + [name, ".."] + b, rooted, kept) == Reduce(a + b, rooted, kept)
  {
    var k := Reduce(a, rooted, kept);
    var pair := [name, ".."];
    assert pair[1..] == [".."] && pair[1..][1..] == [];
    assert Push(k, name, rooted) == k + [name] && (k + [name])[..|k|] == k;
    assert Reduce(pair, rooted, k) == Reduce([".."], rooted, k + [name]) == Reduce([], rooted, k);
    Inserted(a, pair, b, rooted, kept);
  }

  /** Empty components and "." vanish. */
  lemma DotVanishes(a: seq<string>, dot: string, b: seq<string>, rooted: bool, kept: seq<string>)
    requires dot == "" || dot == "."
    ensures Reduce(a + [dot] + b, rooted, kept) == Reduce(a + b, rooted, kept)
  {
    var k := Reduce(a, rooted, kept);
    assert [dot][1..] == [];
    assert Reduce([dot], rooted, k) == Reduce([], rooted, k);
    Inserted(a, [dot], b, rooted, kept);
  }

  lemma SplitThree(a: string, middle: string, b: string)
    ensures Split(a + "/" + middle + "/" + b) == Split(a) + Split(middle) + Split(b)
  {
    SplitAppend(a + "/" + middle, b);
    SplitAppend(a, middle);
  }

  lemma SameStart(a: string, x: string, y: string)
    ensures a + "/" + x != "" && (a + "/" + x)[0] == (a + "/" + y)[0]
  {
  }

  lemma SplitUp(a: string, name: string, b: string)
    requires Plain(name)
    ensures Split(a + "/" + name + "/../" + b) == Split(a) + [name, ".."] + Split(b)
  {
    var middle := name + "/" + "..";
    assert a + "/" + name + "/../" + b == a + "/" + middle + "/" + b;
    SplitThree(a, middle, b);
    SplitAppend(name, "..");
    SplitSingle(name);
    SplitSingle("..");
    assert [name] + [".."] == [name, ".."];
  }

  /** `a/name/../b` is `a/b`. */
  lemma CleanCancels(a: string, name: string, b: string)
    requires Plain(name)
    ensures Clean(a + "/" + name + "/../" + b) == Clean(a + "/" + b)
  {
    SplitUp(a, name, b);
    SplitAppend(a, b);
    var before, after := a + "/" + name + "/../" + b, a + "/" + b;
    assert before == a + "/" + (name + "/../" + b);
    SameStart(a, b, name + "/../" + b);
    NameThenUpCancels(Split(a), name, Split(b), after[0] == '/', []);
  }

  /** `a/./b` and `a//b` are `a/b`. */
  lemma CleanSkips(a: string, dot: string, b: string)
    requires dot == "" || dot == "."
    ensures Clean(a + "/" + dot + "/" + b) == Clean(a + "/" + b)
  {
    var rooted := (a + "/" + b)[0] == '/';
    SplitThree(a, dot, b);
    SplitSingle(dot);
    SplitAppend(a, b);
    DotVanishes(Split(a), dot, Split(b), rooted, []);
    SameStart(a, b, dot + "/" + b);
    assert a + "/" + dot + "/" + b == a + "/" + (dot + "/" + b);
  }

  /** Nothing is above the root: `/../b` is `/b`. */
  lemma CleanStopsAtRoot(b: string)
    ensures Clean("/../" + b) == Clean("/" + b)
  {
    assert "/../" + b == "" + "/" + ".." + "/" + b && "/" + b == "" + "/" + b;
    SplitThree("", "..", b);
    SplitSingle("..");
    SplitAppend("", b);
    var k := Reduce([""], true, []);
    assert [""][1..] == [] && [".."][1..] == [];
    assert k == [] && Reduce([".."], true, k) == [];
    Inserted([""], [".."], Split(b), true, []);
  }

  lemma LeadingDotVanishes(s: string)
    requires s != "" && s[0] != '/'
    ensures Clean("./" + s) == Clean(s)
  {
    var dotted := "." + "/" + s;
    assert dotted == "./" + s && dotted[0] == '.';
    SplitAppend(".", s);
    SplitSingle(".");
    ReduceAppend(["."], Split(s), false, []);
    assert ["."][1..] == [] && Reduce(["."], false, []) == Reduce([], false, []);
  }

  lemma TrailingSlashVanishes(s: string)
    requires s != "" && s[0] != '/'
    ensures Clean(s + "/") == Clean(s)
  {
    assert s + "/" == s + "/" + "";
    SplitAppend(s, "");
    DotVanishes(Split(s), "", [], false, []);
    assert Split(s) + [""] + [] == Split(s) + [""] && Split(s) + [] == Split(s);
  }

  /** A leading "./" or trailing slash makes no difference to a relative path. */
  lemma CleanTrims(s: string)
    requires s != "" && s[0] != '/'
    ensures Clean("./" + s) == Clean(s) && Clean(s + "/") == Clean(s)
  {
    LeadingDotVanishes(s);
    TrailingSlashVanishes(s);
  }

  // ---- Escaping ----

  /** How far below its start a walk along the components is. */
  function Depth(parts: seq<string>): int
  {
    if parts == [] then 0
    else Depth(parts[..|parts| - 1]) +
         (if Plain(parts[|parts| - 1]) then 1 else if parts[|parts| - 1] == ".." then -1 else 0)
  }

  /** The walk leaves the directory it starts in at some point. */
  ghost predicate Escapes(parts: seq<string>, start: nat)
  {
    exists k :: 0 <= k <= |parts| && start + Depth(parts[..k]) < 0
  }

  lemma {:induction false} DepthCons(first: string, rest: seq<string>)
    ensures Depth([first] + rest) == Depth([first]) + Depth(rest)
    decreases |rest|
  {
    if rest == [] {
      assert [first] + rest == [first];
    } else {
      var parts := [first] + rest;
      assert parts[..|parts| - 1] == [first] + rest[..|rest| - 1];
      DepthCons(first, rest[..|rest| - 1]);
    }
  }

  lemma EscapesCons(parts: seq<string>, start: nat)
    requires parts != [] && start + Depth(parts[..1]) >= 0
    ensures Escapes(parts, start) <==> Escapes(parts[1..], start + Depth(parts[..1]))
  {
    var next := start + Depth(parts[..1]);
    forall k | 0 <= k < |parts| ensures Depth(parts[..k + 1]) == Depth(parts[..1]) + Depth(parts[1..][..k])
    {
      assert parts[..k + 1] == parts[..1] + parts[1..][..k];
      assert parts[..1] == [parts[0]];
      DepthCons(parts[0], parts[1..][..k]);
    }
    if k :| 0 <= k <= |parts| && start + Depth(parts[..k]) < 0 {
      assert k > 0;
      assert next + Depth(parts[1..][..k - 1]) < 0;
    }
    if k :| 0 <= k <= |parts[1..]| && next + Depth(parts[1..][..k]) < 0 {
      assert start + Depth(parts[..k + 1]) < 0;
    }
  }

  lemma OneDeep(part: string)
    ensures Depth([part]) == if Plain(part) then 1 else if part == ".." then -1 else 0
  {
    assert [part][..0] == [] && Depth([]) == 0;
  }

  lemma {:induction false} UpStays(parts: seq<string>, kept: seq<string>)
    requires kept != [] && kept[0] == ".."
    ensures Reduce(parts, false, kept) != [] && Reduce(parts, false, kept)[0] == ".."
  {
    if parts != [] {
      UpStays(parts[1..], Push(kept, parts[0], false));
    }
  }

  /** What is left begins with ".." exactly when the walk escapes. */
  lemma {:induction false} UpLeftIffEscapes(parts: seq<string>, kept: seq<string>)
    requires forall part :: part in parts ==> '/' !in part
    requires forall part :: part in kept ==> Plain(part)
    ensures (Reduce(parts, false, kept) != [] && Reduce(parts, false, kept)[0] == "..") <==> Escapes(parts, |kept|)
    decreases |parts|
  {
    if parts == [] {
      assert parts[..0] == [];
      assert kept != [] ==> kept[0] in kept;
    } else {
      assert parts[..1] == [parts[0]] && parts[0] in parts;
      OneDeep(parts[0]);
      if parts[0] == ".." && kept == [] {
        assert Push(kept, parts[0], false) == [".."];
        UpStays(parts[1..], [".."]);
        assert |kept| + Depth(parts[..1]) < 0;
      } else {
        assert kept != [] ==> kept[|kept| - 1] in kept;
        var next := Push(kept, parts[0], false);
        assert |next| == |kept| + Depth(parts[..1]);
        UpLeftIffEscapes(parts[1..], next);
        EscapesCons(parts, |kept|);
      }
    }
  }

  /** Which requests are refused, and why: absolute ones, those that leave the mount on the way, and
      those that lead into the reserved directory. */
  lemma RefusedIff(value: string)
    ensures CleanRelativePath(value) == Err(Absolute) <==> "/" <= value
    ensures CleanRelativePath(value) == Err(Traversal) <==> !("/" <= value) && Escapes(Split(value), 0)
    ensures CleanRelativePath(value) == Err(Reserved) <==>
              && !("/" <= value) && !Escapes(Split(value), 0)
              && Components(value) != [] && Components(value)[0] == RESERVED_NAMESPACE
  {
    SplitParts(value);
    UpLeftIffEscapes(Split(value), []);
    if Blank(value) {
      assert '/' !in value;
      SplitSingle(value);
      assert value != "." && value != ".." && value != RESERVED_NAMESPACE by {
        assert !IsSpace("."[0]) && !IsSpace(".."[0]) && !IsSpace(RESERVED_NAMESPACE[0]);
      }
      BlankStays(value);
    } else if !("/" <= value) {
      CleanRelative(value);
      if Components(value) == [] {
        SplitSingle(".");
        FirstComponent("..", ".");
        FirstComponent(RESERVED_NAMESPACE, ".");
      } else {
        FirstComponent("..", Clean(value));
        FirstComponent(RESERVED_NAMESPACE, Clean(value));
      }
    }
  }

  lemma BlankStays(value: string)
    requires Split(value) == [value] && value != "." && value != ".." && value != RESERVED_NAMESPACE && '/' !in value
    ensures !Escapes(Split(value), 0)
    ensures Components(value) == [] || Components(value)[0] != RESERVED_NAMESPACE
  {
    OneDeep(value);
    assert [value][..0] == [] && [value][..1] == [value] && [value][1..] == [];
    assert Components(value) == Reduce([], false, Push([], value, false));
  }

  // ---- Space around a text ----

  /** White space is what Unicode calls so: five controls, the spaces of its general punctuation
      block, and nine more. */
  lemma SpaceCodes(c: char)
    ensures IsSpace(c) <==>
              || 9 <= c as int <= 13 || 8192 <= c as int <= 8202
              || c as int in {32, 133, 160, 5760, 8232, 8233, 8239, 8287, 12288}
  {
  }

  lemma BlankJoin(a: string, b: string)
    requires Blank(a) && Blank(b)
    ensures Blank(a + b)
  {
  }

  /** `TrimSpace` takes white space off both ends, all of it and nothing else. */
  lemma {:induction false} TrimSpaceTakesEnds(s: string) returns (front: string, back: string)
    ensures s == front + TrimSpace(s) + back && Blank(front) && Blank(back)
    ensures var t := TrimSpace(s); t != "" ==> !IsSpace(t[0]) && !IsSpace(t[|t| - 1])
    decreases |s|
  {
    if s == "" {
      return "", "";
    } else if IsSpace(s[0]) {
      var rest := s[1..];
      front, back := TrimSpaceTakesEnds(rest);
      BlankJoin(s[..1], front);
      calc {
        s[..1] + front + TrimSpace(rest) + back;
        s[..1] + (front + TrimSpace(rest) + back);
        s;
      }
      front := s[..1] + front;
    } else if IsSpace(s[|s| - 1]) {
      var rest := s[..|s| - 1];
      front, back := TrimSpaceTakesEnds(rest);
      BlankJoin(back, s[|s| - 1..]);
      calc {
        front + TrimSpace(rest) + (back + s[|s| - 1..]);
        front + TrimSpace(rest) + back + s[|s| - 1..];
        s;
      }
      back := back + s[|s| - 1..];
    } else {
      return "", "";
    }
  }

  /** A token boundary is read as the path of any request is, except that the mount itself is
      stored as "", and that a NUL or the reserved name anywhere in it is refused. */
  lemma BoundaryPathMeans(raw: string)
    ensures var value := TrimSpace(raw);
            && (NormalizeBoundaryPath(raw) == Ok("") <==>
                  value == "" || ('\0' !in value && CleanRelativePath(value) == Ok(".")))
            && (forall p :: p != "" ==>
                  (NormalizeBoundaryPath(raw) == Ok(p) <==>
                     && value != "" && '\0' !in value && CleanRelativePath(value) == Ok(p) && p != "."
                     && RESERVED_NAMESPACE !in Split(p)))
  {
    var value := TrimSpace(raw);
    TrimmedIsNotBlank(raw);
    if value != "" && !("/" <= value) {
      var cleaned := Clean(value);
      CleanRelative(value);
      FirstComponent(RESERVED_NAMESPACE, cleaned);
      DotIsAccepted();
      assert AtOrBelow(RESERVED_NAMESPACE, cleaned) ==> RESERVED_NAMESPACE in Split(cleaned);
      if cleaned == "." {
        SplitSingle(".");
      }
    }
  }

  /** What the share portal refuses is exactly what a request to the mount itself would be. */
  lemma ShareBoundPathRefuses(shareRoot: string, requested: string)
    ensures ResolveShareBoundPath(shareRoot, requested).Err? <==> CleanRelativePath(requested).Err?
    ensures CleanRelativePath(requested).Err? ==> ResolveShareBoundPath(shareRoot, requested) == CleanRelativePath(requested)
  {
  }
}
