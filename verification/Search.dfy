/** `Search`: the filter, and pagination by a cursor made of the last entry's folded name and id.
    SQLite folds the stored names with `lower`, the server folds the cursor with
    `strings.ToLower`; `sql` and `go` are these two foldings. */
module Search {
  import opened Sorting
  import opened TextOrder
  import Like = LikePattern
  import Paths

  datatype Row = Row(id: string, space: string, mount: string, path: string, name: string, deleted: bool)

  /** The entries, and the mounts that are active, indexed and of verified identity. */
  datatype Catalog = Catalog(rows: set<Row>, searchable: set<string>)

  datatype Cursor = Cursor(name: string, id: string)
  const START := Cursor("", "")

  /** Ids are hashes of mount and path, and no name is empty. */
  ghost predicate Proper(rows: set<Row>)
  {
    && (forall a, b :: a in rows && b in rows && a.id == b.id ==> a == b)
    && (forall a :: a in rows ==> a.name != "" && a.id != "")
  }

  // ---- ORDER BY lower(name), id ----

  predicate Before(sql: string -> string, a: Row, b: Row)
  {
    Less(sql(a.name), sql(b.name)) || (sql(a.name) == sql(b.name) && Less(a.id, b.id))
  }

  /** `ORDER BY lower(name), id`. */
  function ByName(sql: string -> string): Order<Row>
  {
    (a: Row, b: Row) => Before(sql, a, b)
  }

  lemma BeforeTotal(sql: string -> string, a: Row, b: Row)
    requires a.id != b.id
    ensures Before(sql, a, b) <==> !Before(sql, b, a)
  {
    Trichotomy(sql(a.name), sql(b.name));
    Trichotomy(a.id, b.id);
  }

  lemma BeforeTransitive(sql: string -> string, a: Row, b: Row, c: Row)
    requires Before(sql, a, b) && Before(sql, b, c)
    ensures Before(sql, a, c)
  {
    if Less(sql(a.name), sql(b.name)) && Less(sql(b.name), sql(c.name)) {
      Transitive(sql(a.name), sql(b.name), sql(c.name));
    } else if sql(a.name) == sql(b.name) && sql(b.name) == sql(c.name) {
      Transitive(a.id, b.id, c.id);
    }
  }

  lemma BeforeIrreflexive(sql: string -> string, a: Row)
    ensures !Before(sql, a, a)
  {
    Trichotomy(sql(a.name), sql(a.name));
    Trichotomy(a.id, a.id);
  }

  lemma NamesOrder(sql: string -> string, rows: set<Row>)
    requires Proper(rows)
    ensures Orders(ByName(sql), rows)
  {
    var before := ByName(sql);
    forall a | a in rows ensures !before(a, a)
    {
      BeforeIrreflexive(sql, a);
    }
    forall a, b | a in rows && b in rows && a != b ensures before(a, b) || before(b, a)
    {
      BeforeTotal(sql, a, b);
    }
    forall a, b, c | a in rows && b in rows && c in rows ensures Transits(before, a, b, c)
    {
      if Before(sql, a, b) && Before(sql, b, c) {
        BeforeTransitive(sql, a, b, c);
      }
    }
  }

  // ---- The filter ----

  datatype Boundary = Boundary(mount: string, path: string)
  datatype SearchError = InvalidInput | InvalidCursor
  datatype Result<+T> = Ok(value: T) | Err(error: SearchError)
  datatype Option<+T> = None | Some(value: T)

  datatype Options = Options(space: string, query: string, limit: int, cursor: Option<Cursor>,
                             unrestricted: bool, boundaries: seq<Boundary>)
  datatype Page = Page(items: seq<Row>, next: Option<Cursor>)

  function NormalizeLimit(limit: int): (n: nat)
    ensures 1 <= n <= 100
    ensures 1 <= limit <= 100 ==> n == limit
    ensures limit > 0 ==> n <= limit && (n < limit ==> n == 100)
    ensures limit <= 0 ==> n == 50
  {
    if limit <= 0 then 50 else if limit > 100 then 100 else limit
  }

  /** One boundary as `normalizeSearchBoundaries` reads it. */
  function Normalized(b: Boundary): Result<Boundary>
  {
    var mount := Paths.TrimSpace(b.mount);
    var path := Paths.TrimSpace(b.path);
    if mount == "" then Err(InvalidInput)
    else if path == "" || path == "." then Ok(Boundary(mount, ""))
    else match Paths.CleanRelativePath(path)
         case Ok(cleaned) => Ok(Boundary(mount, cleaned))
         case Err(_) => Err(InvalidInput)
  }

  /** `normalizeSearchBoundaries`: refuses a list with a bad entry; otherwise each is kept once. */
  method NormalizeBoundaries(boundaries: seq<Boundary>) returns (r: Result<seq<Boundary>>)
    ensures r.Err? <==> exists b :: b in boundaries && Normalized(b).Err?
    ensures r.Ok? ==> forall n :: n in r.value <==> exists b :: b in boundaries && Normalized(b) == Ok(n)
    ensures r.Ok? ==> forall i, j :: 0 <= i < j < |r.value| ==> r.value[i] != r.value[j]
  {
    var seen: set<Boundary> := {};
    var normalized: seq<Boundary> := [];
    for i := 0 to |boundaries|
      invariant forall b :: b in boundaries[..i] ==> Normalized(b).Ok?
      invariant forall n :: n in normalized <==> n in seen
      invariant forall n :: n in normalized <==> exists b :: b in boundaries[..i] && Normalized(b) == Ok(n)
      invariant forall j, k :: 0 <= j < k < |normalized| ==> normalized[j] != normalized[k]
    {
      assert boundaries[..i + 1] == boundaries[..i] + [boundaries[i]];
      match Normalized(boundaries[i])
      case Err(e) => return Err(e);
      case Ok(n) =>
        assert boundaries[i] in boundaries[..i + 1];
        if n !in seen {
          seen := seen + {n};
          normalized := normalized + [n];
        }
    }
    assert boundaries[..|boundaries|] == boundaries;
    return Ok(normalized);
  }

  predicate Within(n: Boundary, row: Row)
  {
    row.mount == n.mount && Like.BoundaryClause(n.path, row.path)
  }

  /** The `WHERE` clause, apart from the cursor, over the boundaries as they were asked for. */
  predicate Selected(catalog: Catalog, sql: string -> string, go: string -> string, opts: Options, row: Row)
  {
    var query := go(Paths.TrimSpace(opts.query));
    && row.space == opts.space && !row.deleted && row.mount in catalog.searchable
    && (query == "" || Like.Like("%" + Like.Escaped(query) + "%", sql(row.name), Like.BACKSLASH))
    && (opts.unrestricted ||
        exists b :: b in opts.boundaries && Normalized(b).Ok? && Within(Normalized(b).value, row))
  }

  function Matching(catalog: Catalog, sql: string -> string, go: string -> string, opts: Options): set<Row>
  {
    set r | r in catalog.rows && Selected(catalog, sql, go, opts, r)
  }

  /** The row is the boundary itself, or lies beneath it up to case. */
  ghost predicate Covers(n: Boundary, row: Row)
  {
    && row.mount == n.mount
    && (n.path == "" || row.path == n.path || Like.Beneath(n.path, row.path))
  }

  /** What the filter selects, without patterns: names that contain the query, and paths that one
      of the boundaries covers. */
  lemma MatchingMeans(catalog: Catalog, sql: string -> string, go: string -> string, opts: Options, row: Row)
    ensures var query := go(Paths.TrimSpace(opts.query));
            row in Matching(catalog, sql, go, opts) <==>
              && row in catalog.rows && row.space == opts.space && !row.deleted && row.mount in catalog.searchable
              && (query == "" || Like.Contains(Like.FoldText(sql(row.name)), Like.FoldText(query)))
              && (opts.unrestricted ||
                  exists b :: b in opts.boundaries && Normalized(b).Ok? && Covers(Normalized(b).value, row))
  {
    Like.QueryPatternMeansContains(go(Paths.TrimSpace(opts.query)), sql(row.name));
    forall b | b in opts.boundaries && Normalized(b).Ok?
      ensures Within(Normalized(b).value, row) <==> Covers(Normalized(b).value, row)
    {
      Like.BoundaryPatternMeansBeneath(Normalized(b).value.path, row.path);
    }
  }

  predicate After(sql: string -> string, c: Cursor, row: Row)
  {
    c.name == "" || Less(c.name, sql(row.name)) || (sql(row.name) == c.name && Less(c.id, row.id))
  }

  function DecodeCursor(go: string -> string, cursor: Option<Cursor>): Result<Cursor>
  {
    if cursor == None then Ok(START)
    else if cursor.value.name == "" || cursor.value.id == "" then Err(InvalidCursor)
    else Ok(Cursor(go(cursor.value.name), cursor.value.id))
  }

  function Behind(sql: string -> string, rows: set<Row>, c: Cursor): set<Row>
  {
    set r | r in rows && After(sql, c, r)
  }

  /** A boundary that cleans to "." without being "." covers nothing. */
  lemma DotBoundaryCoversNothing(mount: string, row: Row)
    requires Paths.Cleaned(row.path) && row.path != "."
    ensures !Within(Boundary(mount, "."), row)
  {
    Like.BoundaryPatternMeansBeneath(".", row.path);
    assert Like.FoldText(".") == ".";
    Paths.FirstComponent(".", row.path);
    Like.DotSlashFolds(row.path);
  }

  /** "./" is such a boundary; "." is taken for the whole mount. */
  lemma SlashedDotIsNotTheMount(mount: string)
    requires Paths.TrimSpace(mount) != ""
    ensures Normalized(Boundary(mount, "./")) == Ok(Boundary(Paths.TrimSpace(mount), "."))
    ensures Normalized(Boundary(mount, ".")) == Ok(Boundary(Paths.TrimSpace(mount), ""))
  {
    Paths.SlashedDotIsAccepted();
    assert Paths.TrimSpace(".") == ".";
  }

  /** The path that a boundary names, read as every other path of a request is. */
  function Named(b: Boundary): Paths.Result<string>
  {
    Paths.CleanRelativePath(Paths.TrimSpace(b.path))
  }

  /** Every entry at or beneath what the boundary names passes its clause. */
  ghost predicate CoversItsOwn(b: Boundary)
    requires Normalized(b).Ok? && Named(b).Ok?
  {
    forall row: Row ::
      (row.mount == Paths.TrimSpace(b.mount) && Paths.Cleaned(row.path) && Paths.Parts(Named(b).value) <= Paths.Parts(row.path)) ==>
        Within(Normalized(b).value, row)
  }

  /** A boundary is refused exactly when it names no mount, or a path that every other request would
      be refused for. */
  lemma BoundaryRefusedIff(b: Boundary)
    ensures Normalized(b).Err? <==> Paths.TrimSpace(b.mount) == "" || Named(b).Err?
    ensures Normalized(b).Ok? ==> Normalized(b).value.mount == Paths.TrimSpace(b.mount)
  {
    Paths.DotIsAccepted();
  }

  /** It does unless it names the mount in another way than by "" or ".". */
  lemma CoversItsOwnIff(b: Boundary)
    requires Normalized(b).Ok?
    ensures Named(b).Ok?
    ensures CoversItsOwn(b) <==> Paths.TrimSpace(b.path) in {"", "."} || Named(b).value != "."
  {
    var path := Paths.TrimSpace(b.path);
    Paths.DotIsAccepted();
    var n := Normalized(b).value;
    Paths.CleanRelativePathAccepts(path);
    if path == "" || path == "." {
      assert n.path == "";
    } else if Named(b).value == "." {
      Paths.SplitSingle("x");
      var row := Row("x", "", n.mount, "x", "x", false);
      DotBoundaryCoversNothing(n.mount, row);
      assert !CoversItsOwn(b);
    } else {
      forall row: Row | row.mount == n.mount && Paths.Cleaned(row.path) && Paths.Parts(n.path) <= Paths.Parts(row.path)
        ensures Within(n, row)
      {
        Paths.PartsMeanAtOrBelow(n.path, row.path);
        Like.BoundaryClauseIsComponentTest(n.path, row.path);
      }
    }
  }

  // ---- One page ----

  function NextCursor(go: string -> string, items: seq<Row>, limit: nat): Option<Cursor>
  {
    if items != [] && |items| == limit
    then Some(Cursor(go(items[|items| - 1].name), items[|items| - 1].id)) else None
  }

  ghost predicate Refused(opts: Options)
  {
    || Paths.Blank(opts.space)
    || (exists b :: b in opts.boundaries && Normalized(b).Err?)
    || ((opts.unrestricted || opts.boundaries != []) && opts.cursor.Some? &&
        (opts.cursor.value.name == "" || opts.cursor.value.id == ""))
  }

  method Search(catalog: Catalog, sql: string -> string, go: string -> string, opts: Options)
    returns (r: Result<Page>)
    requires Proper(catalog.rows)
    ensures r.Err? <==> Refused(opts)
    ensures r.Ok? ==> r.value.next == NextCursor(go, r.value.items, NormalizeLimit(opts.limit))
    ensures r.Ok? && DecodeCursor(go, opts.cursor).Ok? ==>
      var rest := Behind(sql, Matching(catalog, sql, go, opts), DecodeCursor(go, opts.cursor).value);
      IsFront(ByName(sql), rest, NormalizeLimit(opts.limit), r.value.items)
  {
    if Paths.Blank(opts.space) { return Err(InvalidInput); }
    var normalized := NormalizeBoundaries(opts.boundaries);
    if normalized.Err? { return Err(InvalidInput); }
    var boundaries := normalized.value;
    assert boundaries == [] ==> opts.boundaries == [] by {
      if opts.boundaries != [] {
        assert opts.boundaries[0] in opts.boundaries;
        assert Normalized(opts.boundaries[0]).value in boundaries;
      }
    }
    if !opts.unrestricted && boundaries == [] {
      assert Matching(catalog, sql, go, opts) == {};
      assert forall c :: Behind(sql, {}, c) == {};
      FrontOfNothing(ByName(sql), NormalizeLimit(opts.limit));
      return Ok(Page([], None));
    }
    assert boundaries != [] ==> boundaries[0] in boundaries;
    var limit := NormalizeLimit(opts.limit);
    var cursor := DecodeCursor(go, opts.cursor);
    if cursor.Err? { return Err(InvalidCursor); }
    var query := go(Paths.TrimSpace(opts.query));
    var pattern := if query == "" then "%" else "%" + Like.Escaped(query) + "%";
    var rows := set r | r in catalog.rows
      && r.space == opts.space && !r.deleted && r.mount in catalog.searchable
      && (pattern == "%" || Like.Like(pattern, sql(r.name), Like.BACKSLASH))
      && (opts.unrestricted || exists b :: b in boundaries && Within(b, r))
      && After(sql, cursor.value, r);
    assert rows == Behind(sql, Matching(catalog, sql, go, opts), cursor.value);
    NamesOrder(sql, rows);
    var items := TakeSorted(ByName(sql), rows, limit);
    return Ok(Page(items, NextCursor(go, items, limit)));
  }

  // ---- All pages ----

  /** The server's folding, applied once for the cursor and once when it comes back, gives what
      SQLite's gives. */
  predicate FoldsAgree(sql: string -> string, go: string -> string, name: string)
  {
    go(go(name)) == sql(name) && go(name) != "" && sql(name) != ""
  }

  /** Behind the cursor made of one row come exactly the rows after it. */
  lemma PageBreak(sql: string -> string, rows: set<Row>, sorted: seq<Row>, k: nat)
    requires IsSorting(ByName(sql), rows, sorted) && k < |sorted| && sql(sorted[k].name) != ""
    ensures IsSorting(ByName(sql), Behind(sql, rows, Cursor(sql(sorted[k].name), sorted[k].id)), sorted[k + 1..])
  {
    var c := Cursor(sql(sorted[k].name), sorted[k].id);
    forall r ensures r in sorted[k + 1..] <==> r in rows && After(sql, c, r)
    {
      assert After(sql, c, r) <==> Before(sql, sorted[k], r);
      if r in sorted[k + 1..] {
        var i :| 0 <= i < |sorted[k + 1..]| && sorted[k + 1..][i] == r;
        assert r == sorted[k + 1 + i];
      }
      if r in rows && Before(sql, sorted[k], r) {
        var i :| 0 <= i < |sorted| && sorted[i] == r;
        if i <= k {
          if i < k { BeforeTransitive(sql, sorted[k], sorted[i], sorted[k]); }
          BeforeIrreflexive(sql, sorted[k]);
        }
        assert sorted[k + 1..][i - k - 1] == r;
      }
    }
  }

  /** The next request continues exactly behind what has been returned. */
  lemma NextRequest(catalog: Catalog, sql: string -> string, go: string -> string, opts: Options, asked: Options,
                    all: seq<Row>, items: seq<Row>, left: seq<Row>)
    requires !Refused(opts.(cursor := None)) && asked == opts.(cursor := LastCursor(go, items), limit := asked.limit)
    requires IsSorting(ByName(sql), Matching(catalog, sql, go, opts), all) && items + left == all
    requires forall r :: r in Matching(catalog, sql, go, opts) ==> FoldsAgree(sql, go, r.name)
    requires forall r :: r in all ==> r.id != ""
    ensures !Refused(asked) && DecodeCursor(go, asked.cursor).Ok?
    ensures IsSorting(ByName(sql), Behind(sql, Matching(catalog, sql, go, asked), DecodeCursor(go, asked.cursor).value), left)
  {
    var rows := Matching(catalog, sql, go, opts);
    assert Matching(catalog, sql, go, asked) == rows;
    if items == [] {
      assert left == all;
      assert Behind(sql, rows, START) == rows;
    } else {
      var k := |items| - 1;
      assert all[k] == items[k] && all[k] in all;
      assert left == all[k + 1..];
      PageBreak(sql, rows, all, k);
    }
  }

  function LastCursor(go: string -> string, items: seq<Row>): Option<Cursor>
  {
    if items == [] then None else Some(Cursor(go(items[|items| - 1].name), items[|items| - 1].id))
  }

  lemma NextPart(a: seq<Row>, b: seq<Row>, whole: seq<Row>, page: seq<Row>)
    requires a + b == whole && page <= b
    ensures a + page + b[|page|..] == whole
  {
    assert b == page + b[|page|..];
  }

  /** One request of a client that has the items so far and asks for more. */
  method AskPage(catalog: Catalog, sql: string -> string, go: string -> string, opts: Options, cursor: Option<Cursor>,
                 limit: int, ghost items: seq<Row>, ghost all: seq<Row>, ghost left: seq<Row>)
    returns (page: Page)
    requires cursor == LastCursor(go, items)
    requires Proper(catalog.rows) && !Refused(opts.(cursor := None))
    requires IsSorting(ByName(sql), Matching(catalog, sql, go, opts), all) && items + left == all
    requires forall r :: r in Matching(catalog, sql, go, opts) ==> FoldsAgree(sql, go, r.name)
    requires forall r :: r in all ==> r.id != ""
    ensures page.items <= left && |page.items| == Min(NormalizeLimit(limit), |left|)
    ensures page.next == NextCursor(go, page.items, NormalizeLimit(limit))
  {
    var asked := opts.(cursor := cursor, limit := limit);
    NextRequest(catalog, sql, go, opts, asked, all, items, left);
    var r := Search(catalog, sql, go, asked);
    FrontOf(ByName(sql), Behind(sql, Matching(catalog, sql, go, asked), DecodeCursor(go, asked.cursor).value),
            NormalizeLimit(limit), r.value.items, left);
    return r.value;
  }

  /** Following the cursors from the first page, with whatever limit each time, yields every
      matching entry exactly once, in order, and ends. */
  method FollowCursors(catalog: Catalog, sql: string -> string, go: string -> string, opts: Options)
    returns (items: seq<Row>)
    requires Proper(catalog.rows) && !Refused(opts.(cursor := None))
    requires forall r :: r in Matching(catalog, sql, go, opts) ==> FoldsAgree(sql, go, r.name)
    ensures IsSorting(ByName(sql), Matching(catalog, sql, go, opts), items)
  {
    ghost var rows := Matching(catalog, sql, go, opts);
    NamesOrder(sql, rows);
    ghost var all := SortingExists(ByName(sql), rows);
    ghost var left := all;
    items := [];
    var cursor: Option<Cursor> := None;
    while true
      invariant items + left == all && cursor == LastCursor(go, items)
      decreases |left|
    {
      var limit: int := *;
      var page := AskPage(catalog, sql, go, opts, cursor, limit, items, all, left);
      NextPart(items, left, all, page.items);
      items := items + page.items;
      left := left[|page.items|..];
      cursor := page.next;
      if cursor == None { break; }
    }
    assert left == [] && items == all;
  }

  // ---- When the two foldings differ ----

  /** Every page break continues exactly behind the last row of the page. */
  ghost predicate BreaksCleanly(sql: string -> string, go: string -> string, rows: set<Row>, sorted: seq<Row>)
  {
    forall k :: 0 <= k < |sorted| ==>
      IsSorting(ByName(sql), Behind(sql, rows, Cursor(go(go(sorted[k].name)), sorted[k].id)), sorted[k + 1..])
  }

  const SPACE := "space"
  const MOUNT := "mount"

  /** Two entries of one name, in different directories of a mount. */
  function First(name: string): Row
  {
    Row("a", SPACE, MOUNT, "x/" + name, name, false)
  }

  function Second(name: string): Row
  {
    Row("b", SPACE, MOUNT, "y/" + name, name, false)
  }

  function Twins(name: string): set<Row>
  {
    {First(name), Second(name)}
  }

  lemma TwinsSorted(sql: string -> string, name: string)
    requires name != ""
    ensures Proper(Twins(name)) && IsSorting(ByName(sql), Twins(name), [First(name), Second(name)])
  {
    assert Less("a", "b");
  }

  lemma TwinsBreak(sql: string -> string, go: string -> string, name: string)
    requires name != ""
    ensures BreaksCleanly(sql, go, Twins(name), [First(name), Second(name)]) ==> go(go(name)) == sql(name)
  {
    var a, b := First(name), Second(name);
    var sorted := [a, b];
    assert Less("a", "b");
    if BreaksCleanly(sql, go, Twins(name), sorted) {
      var c := Cursor(go(go(name)), "a");
      assert sorted[0] == a && sorted[0 + 1..] == [b];
      assert IsSorting(ByName(sql), Behind(sql, Twins(name), c), [b]);
      assert b in [b] && a !in [b];
      assert After(sql, c, b) && !After(sql, c, a);
      Trichotomy(c.name, sql(name));
    }
  }

  predicate AllNamed(rows: set<Row>, name: string)
  {
    forall r :: r in rows ==> r.name == name
  }

  /** Pages of entries with a given name always continue where the last one stopped exactly when
      the two foldings agree on the name. */
  lemma BreaksCleanlyIff(sql: string -> string, go: string -> string, name: string)
    requires name != "" && sql(name) != ""
    ensures go(go(name)) == sql(name) <==>
            forall rows: set<Row>, sorted: seq<Row> ::
              Proper(rows) && AllNamed(rows, name) && IsSorting(ByName(sql), rows, sorted) ==> BreaksCleanly(sql, go, rows, sorted)
  {
    if go(go(name)) == sql(name) {
      forall rows: set<Row>, sorted: seq<Row> | Proper(rows) && AllNamed(rows, name) && IsSorting(ByName(sql), rows, sorted)
        ensures BreaksCleanly(sql, go, rows, sorted)
      {
        forall k | 0 <= k < |sorted|
          ensures IsSorting(ByName(sql), Behind(sql, rows, Cursor(go(go(sorted[k].name)), sorted[k].id)), sorted[k + 1..])
        {
          assert sorted[k] in rows;
          PageBreak(sql, rows, sorted, k);
        }
      }
    } else {
      TwinsSorted(sql, name);
      TwinsBreak(sql, go, name);
      assert AllNamed(Twins(name), name);
    }
  }

  const ASKED := Options(SPACE, "", 1, None, true, [])

  lemma TwinsMatch(sql: string -> string, go: string -> string, name: string, cursor: Option<Cursor>)
    requires go("") == ""
    ensures Matching(Catalog(Twins(name), {MOUNT}), sql, go, ASKED.(cursor := cursor)) == Twins(name)
  {
    assert Paths.TrimSpace("") == "";
  }

  /** Behind a cursor that folds too high lies neither twin; behind one that folds too low, both. */
  lemma TwinsBehind(sql: string -> string, name: string, c: Cursor)
    requires name != "" && c.name != sql(name)
    ensures var behind := Behind(sql, Twins(name), c);
            IsSorting(ByName(sql), behind, if c.name != "" && Less(sql(name), c.name) then [] else [First(name), Second(name)])
  {
    TwinsSorted(sql, name);
    Trichotomy(c.name, sql(name));
    if c.name == "" || Less(c.name, sql(name)) {
      assert Behind(sql, Twins(name), c) == Twins(name);
    } else {
      assert Behind(sql, Twins(name), c) == {};
    }
  }

  /** Two requests for one entry each: where the foldings differ on a name, the first page holds
      the first twin, and the page behind its cursor is either empty, so that the second twin is
      skipped, or holds the first twin again. */
  method AskTwice(sql: string -> string, go: string -> string, name: string) returns (page: Page, next: Page)
    requires go("") == "" && name != "" && go(name) != "" && go(go(name)) != sql(name)
    ensures Twins(name) == Matching(Catalog(Twins(name), {MOUNT}), sql, go, ASKED)
    ensures page.items == [First(name)] && page.next == Some(Cursor(go(name), First(name).id))
    ensures next.items == if go(go(name)) != "" && Less(sql(name), go(go(name))) then [] else [First(name)]
    ensures next.next == if next.items == [] then None else page.next
  {
    var catalog := Catalog(Twins(name), {MOUNT});
    TwinsSorted(sql, name);
    assert !Paths.IsSpace(SPACE[0]);
    TwinsMatch(sql, go, name, None);
    assert Behind(sql, Twins(name), START) == Twins(name);
    var r := Search(catalog, sql, go, ASKED);
    FrontOf(ByName(sql), Twins(name), 1, r.value.items, [First(name), Second(name)]);
    page := r.value;
    assert page.items == [First(name)];
    TwinsMatch(sql, go, name, page.next);
    var c := Cursor(go(go(name)), First(name).id);
    TwinsBehind(sql, name, c);
    r := Search(catalog, sql, go, ASKED.(cursor := page.next));
    FrontOf(ByName(sql), Behind(sql, Twins(name), c), 1, r.value.items,
            if c.name != "" && Less(sql(name), c.name) then [] else [First(name), Second(name)]);
    next := r.value;
  }

  /** With SQLite's `lower`, which knows ASCII only, and a folding that knows U+00C9, the second of
      two entries of that name is never returned. */
  method AccentedNameIsSkipped(go: string -> string) returns (page: Page, next: Page)
    requires go("") == "" && go("\U{C9}") == "\U{E9}" && go("\U{E9}") == "\U{E9}"
    ensures Second("\U{C9}") in Matching(Catalog(Twins("\U{C9}"), {MOUNT}), s => Like.FoldText(s), go, ASKED)
    ensures page.items == [First("\U{C9}")] && page.next.Some?
    ensures next == Page([], None)
  {
    assert Like.FoldText("\U{C9}")[0] == '\U{C9}';
    assert Less(Like.FoldText("\U{C9}"), "\U{E9}");
    page, next := AskTwice(s => Like.FoldText(s), go, "\U{C9}");
  }
}
