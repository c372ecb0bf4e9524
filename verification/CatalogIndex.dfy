/** The index rows of the catalog and the two service methods that fill them: one batch, and a
    whole mount. */
module CatalogIndex {
  import opened TextOrder
  import opened CatalogWalk
  import opened CatalogOrder
  import opened CatalogScan
  import opened CatalogRows

  const DEFAULT_BATCH_SIZE := 500
  const MIN_BATCH_SIZE := 200
  const MAX_BATCH_SIZE := 1000

  function Distance(a: int, b: int): nat
  {
    if a < b then b - a else a - b
  }

  /** The bound nearest to what is asked for, or the default. */
  function NormalizeBatchSize(size: int): (limit: nat)
    ensures MIN_BATCH_SIZE <= limit <= MAX_BATCH_SIZE
    ensures MIN_BATCH_SIZE <= size <= MAX_BATCH_SIZE ==> limit == size
    ensures size > 0 ==> forall n :: MIN_BATCH_SIZE <= n <= MAX_BATCH_SIZE ==> Distance(size, limit) <= Distance(size, n)
    ensures size <= 0 ==> limit == DEFAULT_BATCH_SIZE
  {
    if size <= 0 then DEFAULT_BATCH_SIZE
    else if size < MIN_BATCH_SIZE then MIN_BATCH_SIZE
    else if size > MAX_BATCH_SIZE then MAX_BATCH_SIZE
    else size
  }

  datatype Status = Active | Pending | Disabled | Unavailable | Deleted
  datatype Mount = Mount(id: string, status: Status, indexEnabled: bool, identityVerified: bool)
  {
    predicate Indexable() { status == Active && indexEnabled && identityVerified }
  }

  datatype ScanError = MountExcluded | IOError
  datatype Result<+T> = Ok(value: T) | Err(error: ScanError)
  datatype ScanResult = ScanResult(indexed: nat, nextCursor: string, done: bool)

  datatype Key = Key(mount: string, path: string)
  type Index = map<Key, Row>

  /** The effect of the upsert statement for each entry in turn. */
  function Upsert(rows: Index, mount: string, es: seq<Entry>): Index
    decreases es
  {
    if es == [] then rows
    else Upsert(rows[Key(mount, es[0].path) := es[0].row], mount, es[1..])
  }

  lemma {:induction false} UpsertAppend(rows: Index, mount: string, a: seq<Entry>, b: seq<Entry>)
    ensures Upsert(rows, mount, a + b) == Upsert(Upsert(rows, mount, a), mount, b)
    decreases a
  {
    if a == [] {
      assert a + b == b;
    } else {
      assert (a + b)[1..] == a[1..] + b;
      UpsertAppend(rows[Key(mount, a[0].path) := a[0].row], mount, a[1..], b);
    }
  }

  ghost predicate Holds(rows: Index, mount: string, e: Entry)
  {
    Key(mount, e.path) in rows && rows[Key(mount, e.path)] == e.row
  }

  /** Entries drawn from one listing end up in the index as they are; the rows of other paths
      and of other mounts stay as they were. */
  lemma {:induction false} UpsertHolds(rows: Index, mount: string, es: seq<Entry>, listing: seq<Entry>)
    requires Distinct(listing) && forall e :: e in es ==> e in listing
    ensures var after := Upsert(rows, mount, es);
            && (forall e :: e in es ==> Holds(after, mount, e))
            && (forall e :: e in listing && Holds(rows, mount, e) ==> Holds(after, mount, e))
            && (forall k :: k in after && k.mount == mount ==> k in rows || exists e :: e in es && e.path == k.path)
            && (forall k :: k in rows ==> k in after)
            && (forall k: Key :: k.mount != mount ==> (k in rows <==> k in after) && (k in rows ==> after[k] == rows[k]))
    decreases es
  {
    if es != [] {
      var next := rows[Key(mount, es[0].path) := es[0].row];
      assert es[0] in es;
      forall e | e in listing && Holds(rows, mount, e) ensures Holds(next, mount, e) {
        if e.path == es[0].path { SamePathSameEntry(listing, e, es[0]); }
      }
      UpsertHolds(next, mount, es[1..], listing);
      assert Holds(next, mount, es[0]);
    }
  }

  lemma SamePathSameEntry(es: seq<Entry>, a: Entry, b: Entry)
    requires Distinct(es) && a in es && b in es && a.path == b.path
    ensures a == b
  {
    var i :| 0 <= i < |es| && es[i] == a;
    var j :| 0 <= j < |es| && es[j] == b;
  }

  /** Every row of the mount that was not there before describes the file or directory at its path. */
  ghost predicate NewRowsDescribe(before: Index, after: Index, mount: string, f: Forest)
  {
    && (forall k :: k in after && k !in before ==> k.mount == mount && Described(f, Paths.Split(k.path), after[k]))
    && before.Keys <= after.Keys
    && (forall k :: k in before && after[k] != before[k] ==> k.mount == mount && Described(f, Paths.Split(k.path), after[k]))
  }

  lemma {:induction false} UpsertDescribes(rows: Index, mount: string, es: seq<Entry>, f: Forest)
    requires Sorted(f) && forall e :: e in es ==> e in Listing(".", f)
    ensures NewRowsDescribe(rows, Upsert(rows, mount, es), mount, f)
    ensures var after := Upsert(rows, mount, es);
            forall e :: e in es ==>
              Key(mount, e.path) in after && Described(f, Paths.Split(e.path), after[Key(mount, e.path)])
    decreases es
  {
    if es != [] {
      ListingIsTheTree(f);
      assert es[0] in es;
      var next := rows[Key(mount, es[0].path) := es[0].row];
      UpsertDescribes(next, mount, es[1..], f);
      var after := Upsert(next, mount, es[1..]);
      assert Key(mount, es[0].path) in next && next[Key(mount, es[0].path)] == es[0].row;
      assert NewRowsDescribe(next, after, mount, f);
    }
  }

  lemma SeenSoFar(vs: seq<Visit>, limit: nat, cursor: string, seen: seq<Entry>)
    requires limit >= 1 && !Collect(vs, cursor, limit).complete
    ensures var entries := Collect(vs, cursor, limit).entries;
            && entries != []
            && seen + Emitted(vs, limit, cursor) == seen + entries + Emitted(vs, limit, Last(entries))
            && |After(Last(entries), Entries(vs))| < |After(cursor, Entries(vs))|
  {
    CursorAdvances(vs, cursor, limit);
    var entries := Collect(vs, cursor, limit).entries;
    var rest := Emitted(vs, limit, Last(entries));
    assert seen + (entries + rest) == seen + entries + rest;
  }

  lemma BatchDescribes(rows: Index, mount: string, f: Forest, cursor: string, limit: nat)
    requires Sorted(f)
    ensures NewRowsDescribe(rows, Upsert(rows, mount, Collect(DirectoryVisits(".", f), cursor, limit).entries), mount, f)
  {
    BatchFacts(DirectoryVisits(".", f), cursor, limit);
    VisitsFindListing(".", f);
    UpsertDescribes(rows, mount, Collect(DirectoryVisits(".", f), cursor, limit).entries, f);
  }

  lemma EmittedDescribe(rows: Index, mount: string, f: Forest, cursor: string, limit: nat)
    requires Sorted(f) && limit >= 1
    ensures NewRowsDescribe(rows, Upsert(rows, mount, Emitted(DirectoryVisits(".", f), limit, cursor)), mount, f)
  {
    EmittedAreAhead(DirectoryVisits(".", f), limit, cursor);
    VisitsFindListing(".", f);
    UpsertDescribes(rows, mount, Emitted(DirectoryVisits(".", f), limit, cursor), f);
  }

  /** The first of these entries have been stored, the rest not. */
  ghost predicate KeptSome(before: Index, after: Index, mount: string, es: seq<Entry>)
  {
    exists n :: 0 <= n <= |es| && after == Upsert(before, mount, es[..n])
  }

  class Service {
    var rows: Index
    /** Neither the disk nor the database fails. */
    const steady: bool

    constructor (steady: bool)
      ensures rows == map[] && this.steady == steady
    {
      rows := map[];
      this.steady := steady;
    }

    /** One batch: collect, then upsert all of it in one transaction. */
    method ScanBatch(mount: Mount, f: Forest, batchSize: int, cursor: string) returns (r: Result<ScanResult>)
      modifies this
      ensures r == Err(MountExcluded) <==>
                mount.status != Active || !mount.indexEnabled || !mount.identityVerified
      ensures steady ==> (r.Ok? <==> mount.Indexable())
      ensures r.Err? ==> rows == old(rows)
      ensures r.Ok? ==>
                var batch := Collect(DirectoryVisits(".", f), cursor, NormalizeBatchSize(batchSize));
                && rows == Upsert(old(rows), mount.id, batch.entries)
                && r.value.indexed == |batch.entries| && r.value.done == batch.complete
                && r.value.nextCursor == if batch.complete then "" else Last(batch.entries)
      ensures Sorted(f) ==> NewRowsDescribe(old(rows), rows, mount.id, f)
    {
      if !mount.Indexable() {
        return Err(MountExcluded);
      }
      var limit := NormalizeBatchSize(batchSize);
      var collected, batch := CollectBatch(f, cursor, limit, steady);
      if !collected {
        return Err(IOError);
      }
      if |batch.entries| == 0 {
        return Ok(ScanResult(0, "", batch.complete));
      }
      var transaction := rows;
      var i := 0;
      while i < |batch.entries|
        invariant 0 <= i <= |batch.entries|
        invariant Upsert(transaction, mount.id, batch.entries[i..]) == Upsert(rows, mount.id, batch.entries)
      {
        if !steady { if * { return Err(IOError); } }
        var entry := batch.entries[i];
        assert batch.entries[i..][1..] == batch.entries[i + 1..];
        transaction := transaction[Key(mount.id, entry.path) := entry.row];
        i := i + 1;
      }
      if Sorted(f) { BatchDescribes(rows, mount.id, f, cursor, limit); }
      rows := transaction;
      var nextCursor := batch.entries[|batch.entries| - 1].path;
      if batch.complete {
        nextCursor := "";
      }
      return Ok(ScanResult(|batch.entries|, nextCursor, batch.complete));
    }

    /** Batches until one is done. It ends on every tree, and what it leaves in the index is
        everything that the batches, put end to end, emit. */
    method ScanMount(mount: Mount, f: Forest, batchSize: int, start: string) returns (r: Result<ScanResult>)
      modifies this
      ensures r.Ok? ==>
                var emitted := Emitted(DirectoryVisits(".", f), NormalizeBatchSize(batchSize), start);
                rows == Upsert(old(rows), mount.id, emitted) && r.value == ScanResult(|emitted|, "", true)
      ensures r.Err? ==>
                KeptSome(old(rows), rows, mount.id, Emitted(DirectoryVisits(".", f), NormalizeBatchSize(batchSize), start))
      ensures r == Err(MountExcluded) <==> !mount.Indexable()
      ensures steady ==> (r.Ok? <==> mount.Indexable())
      ensures r.Ok? && Sorted(f) ==> NewRowsDescribe(old(rows), rows, mount.id, f)
    {
      ghost var vs, limit := DirectoryVisits(".", f), NormalizeBatchSize(batchSize);
      ghost var all := Emitted(vs, limit, start);
      ghost var seen: seq<Entry> := [];
      var total: nat := 0;
      var cursor := start;
      while true
        invariant all == seen + Emitted(vs, limit, cursor)
        invariant total == |seen| && rows == Upsert(old(rows), mount.id, seen)
        decreases |After(cursor, Entries(vs))|
      {
        var batch := ScanBatch(mount, f, batchSize, cursor);
        if batch.Err? {
          assert all[..|seen|] == seen;
          return batch;
        }
        ghost var entries := Collect(vs, cursor, limit).entries;
        UpsertAppend(old(rows), mount.id, seen, entries);
        total := total + batch.value.indexed;
        if batch.value.done {
          if Sorted(f) { EmittedDescribe(old(rows), mount.id, f, start, limit); }
          return Ok(ScanResult(total, batch.value.nextCursor, true));
        }
        SeenSoFar(vs, limit, cursor, seen);
        cursor := batch.value.nextCursor;
        seen := seen + entries;
      }
    }
  }

  /** A mount scanned from the start is indexed in full when its tree has no splits: every file and
      directory outside the reserved directory has a row that describes it, and nothing else of that
      mount appears that was not there before. */
  lemma ScanIndexesTheTree(rows: Index, mount: string, f: Forest, limit: nat)
    requires Sorted(f) && NoSplit(".", f) && limit >= 1
    ensures var after := Upsert(rows, mount, Emitted(DirectoryVisits(".", f), limit, ""));
            forall parts ::
              Find(f, parts).Some? && !Find(f, parts).value.Other? && parts[0] != Paths.RESERVED_NAMESPACE ==>
                Key(mount, Paths.Join(parts)) in after && Described(f, parts, after[Key(mount, Paths.Join(parts))])
    ensures var after := Upsert(rows, mount, Emitted(DirectoryVisits(".", f), limit, ""));
            && (forall e :: e in Listing(".", f) ==> Holds(after, mount, e))
            && (forall k :: k in after && k.mount == mount ==>
                  k in rows || exists e :: e in Listing(".", f) && e.path == k.path)
  {
    ScanExactForEveryBatchSizeIffNoSplit(f);
    ListingDistinct(".", f);
    UpsertHolds(rows, mount, Listing(".", f), Listing(".", f));
    UpsertDescribes(rows, mount, Listing(".", f), f);
    ListingIsTheTree(f);
    forall parts | Find(f, parts).Some? && !Find(f, parts).value.Other? && parts[0] != Paths.RESERVED_NAMESPACE
      ensures exists e :: e in Listing(".", f) && e.path == Paths.Join(parts) && Paths.Split(e.path) == parts
    {
      assert Lists(f, parts);
      var e :| e in Listing(".", f) && Paths.Split(e.path) == parts;
      Paths.JoinSplit(e.path);
    }
  }

  // ---- A tree that every batch size cuts badly ----

  function Repeat(c: char, n: nat): string
  {
    if n == 0 then "" else [c] + Repeat(c, n - 1)
  }

  function Files(first: nat, last: nat): Forest
    decreases last + 1 - first
  {
    if first > last then Empty
    else Sibling(Repeat('x', first), File(Info(0, "")), Files(first + 1, last))
  }

  /** Directory "a" with one file fewer than fill a batch, and beside it the file "a.txt". */
  function SplitTree(limit: nat): Forest
    requires limit >= 2
  {
    Sibling("a", Directory(Info(0, ""), Files(1, limit - 1)), Sibling("a.txt", File(Info(0, "")), Empty))
  }

  lemma {:induction false} RepeatIs(c: char, n: nat)
    ensures |Repeat(c, n)| == n && forall i :: 0 <= i < n ==> Repeat(c, n)[i] == c
  {
    if n > 0 { RepeatIs(c, n - 1); }
  }

  lemma RepeatLess(c: char, m: nat, n: nat)
    requires m < n
    ensures Less(Repeat(c, m), Repeat(c, n))
  {
    RepeatIs(c, m);
    RepeatIs(c, n);
    assert Repeat(c, n) == Repeat(c, m) + Repeat(c, n)[m..];
    PrefixFirst(Repeat(c, m), Repeat(c, n)[m..]);
  }

  lemma RepeatProper(n: nat)
    requires n >= 1
    ensures ProperName(Repeat('x', n)) && Repeat('x', n)[0] == 'x' && Repeat('x', n) != Paths.RESERVED_NAMESPACE
  {
    RepeatIs('x', n);
    assert Repeat('x', n)[0] == 'x';
  }

  lemma {:induction false} FilesSorted(first: nat, last: nat)
    requires first >= 1
    ensures Sorted(Files(first, last))
    ensures forall m :: m in Names(Files(first, last)) ==> |m| >= first && m == Repeat('x', |m|)
    decreases last + 1 - first
  {
    if first <= last {
      FilesSorted(first + 1, last);
      RepeatProper(first);
      RepeatIs('x', first);
      forall m | m in Names(Files(first + 1, last)) ensures Less(Repeat('x', first), m) {
        RepeatLess('x', first, |m|);
      }
    }
  }

  lemma AcceptedBelow(base: string, name: string)
    requires base == "." || (Paths.Cleaned(base) && base != "." && base != "" && !Paths.IsSpace(base[0]))
    requires ProperName(name) && name != Paths.RESERVED_NAMESPACE && !Paths.IsSpace(name[0])
    ensures Paths.CleanRelativePath(JoinRelative(base, name)).Ok?
  {
    Paths.SplitSingle(name);
    var path := JoinRelative(base, name);
    if base != "." {
      Paths.BoundBelowRoot(base, name);
      assert path[0] == base[0];
    } else {
      assert path == name;
    }
    assert !Paths.Blank(path) by { assert !Paths.IsSpace(path[0]); }
    Paths.CleanedIsFixed(path);
  }

  lemma OneFileListed(base: string, name: string, info: Info, rest: Forest)
    requires Paths.CleanRelativePath(JoinRelative(base, name)).Ok?
    ensures var path := JoinRelative(base, name);
            Listing(base, Sibling(name, File(info), rest)) == [NewEntry(path, name, File(info))] + Listing(base, rest)
  {
    var entry := NewEntry(JoinRelative(base, name), name, File(info));
    assert [entry] + [] == [entry];
  }

  lemma {:induction false} FilesListed(first: nat, last: nat)
    requires 1 <= first <= last + 1
    ensures |Listing("a", Files(first, last))| == last + 1 - first
    ensures forall e :: e in Listing("a", Files(first, last)) ==> "a/" <= e.path
    decreases last + 1 - first
  {
    if first <= last {
      FilesListed(first + 1, last);
      var name, rest := Repeat('x', first), Files(first + 1, last);
      RepeatProper(first);
      Paths.SplitSingle("a");
      AcceptedBelow("a", name);
      OneFileListed("a", name, Info(0, ""), rest);
      assert "a/" <= JoinRelative("a", name);
    }
  }

  /** Whatever the batch size (from 2 up), there is a tree on which the scan ends normally and
      never emits one of the listed paths. */
  lemma EveryBatchSizeCanMiss(limit: nat)
    requires limit >= 2
    ensures var f := SplitTree(limit);
            && Sorted(f) && !NoSplit(".", f)
            && (exists e :: e in Listing(".", f) && e.path == "a.txt")
            && (forall e :: e in Emitted(DirectoryVisits(".", f), limit, "") ==> e.path != "a.txt")
  {
    var f := SplitTree(limit);
    var vs, es := DirectoryVisits(".", f), Listing(".", f);
    SplitTreeSorted(limit);
    SplitTreeListed(limit);
    VisitsFindListing(".", f);
    ListingAfterEmptyCursor(f);
    MissedAtTheEnd(vs, limit);
    assert es[limit] in es;
    ScanExactForEveryBatchSizeIffNoSplit(f);
  }

  /** A first batch that ends inside "a" leaves "a.txt" behind the cursor. */
  lemma MissedAtTheEnd(vs: seq<Visit>, limit: nat)
    requires limit >= 2 && |Entries(vs)| == limit + 1 && After("", Entries(vs)) == Entries(vs)
    requires forall i :: 0 <= i < limit ==> Entries(vs)[i].path != "a.txt"
    requires "a/" <= Entries(vs)[limit - 1].path
    ensures forall e :: e in Emitted(vs, limit, "") ==> e.path != "a.txt"
  {
    FirstBatch(vs, limit);
    var cursor := Entries(vs)[limit - 1].path;
    DotBeforeSlash(cursor);
    Trichotomy("a.txt", cursor);
    EmittedAreAhead(vs, limit, cursor);
    forall e | e in Entries(vs)[..limit] ensures e.path != "a.txt"
    {
      var i :| 0 <= i < limit && Entries(vs)[i] == e;
    }
  }

  lemma FirstBatch(vs: seq<Visit>, limit: nat)
    requires limit >= 2 && |Entries(vs)| == limit + 1 && After("", Entries(vs)) == Entries(vs)
    ensures Emitted(vs, limit, "") == Entries(vs)[..limit] + Emitted(vs, limit, Entries(vs)[limit - 1].path)
  {
    BatchFacts(vs, "", limit);
    CursorAdvances(vs, "", limit);
  }

  lemma DotBeforeSlash(path: string)
    requires "a/" <= path
    ensures Less("a.txt", path)
  {
    assert path == "a" + path[1..] && "a.txt" == "a" + ".txt";
    CommonPrefix("a", ".txt", path[1..]);
  }

  lemma SplitTreeSorted(limit: nat)
    requires limit >= 2
    ensures Sorted(SplitTree(limit))
  {
    FilesSorted(1, limit - 1);
    assert "a.txt" == "a" + ".txt";
    PrefixFirst("a", ".txt");
  }

  lemma SplitTreeListing(limit: nat)
    requires limit >= 2
    ensures var f := SplitTree(limit);
            Listing(".", f) == [NewEntry("a", "a", f.node)] + Listing("a", Files(1, limit - 1)) +
                               [NewEntry("a.txt", "a.txt", f.rest.node)]
  {
    var f := SplitTree(limit);
    AcceptedBelow(".", "a");
    assert JoinRelative(".", "a") == "a";
    FileListing("a.txt", f.rest.node);
  }

  lemma FileListing(name: string, file: Node)
    requires file.File? && ProperName(name) && name != Paths.RESERVED_NAMESPACE && !Paths.IsSpace(name[0])
    ensures Listing(".", Sibling(name, file, Empty)) == [NewEntry(name, name, file)]
  {
    AcceptedBelow(".", name);
    assert JoinRelative(".", name) == name;
  }

  lemma SplitTreeListed(limit: nat)
    requires limit >= 2
    ensures var f, es := SplitTree(limit), Listing(".", SplitTree(limit));
            && |es| == limit + 1 && es[limit].path == "a.txt"
            && (forall i :: 0 <= i < limit ==> es[i].path != "a.txt")
            && "a/" <= es[limit - 1].path
  {
    var f, inner := SplitTree(limit), Listing("a", Files(1, limit - 1));
    SplitTreeListing(limit);
    FilesListed(1, limit - 1);
    Sandwich(NewEntry("a", "a", f.node), inner, NewEntry("a.txt", "a.txt", f.rest.node));
  }

  lemma Sandwich(first: Entry, inner: seq<Entry>, last: Entry)
    requires inner != [] && first.path == "a" && last.path == "a.txt"
    requires forall e :: e in inner ==> "a/" <= e.path
    ensures var es, n := [first] + inner + [last], |inner| + 1;
            && |es| == n + 1 && es[n].path == "a.txt" && "a/" <= es[n - 1].path
            && (forall i :: 0 <= i < n ==> es[i].path != "a.txt")
  {
    forall i | 0 <= i < |inner| ensures inner[i].path != "a.txt" && "a/" <= inner[i].path {
      assert inner[i] in inner;
      assert "a.txt"[1] == '.';
    }
  }
}
