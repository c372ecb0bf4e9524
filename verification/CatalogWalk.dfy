/** The directory walk behind the catalog: the plain listing of a tree, the sequence of things
    the walk looks at, and what one batch, cut by a path cursor, collects from it. */
module CatalogWalk {
  import Paths
  import opened TextOrder

  datatype Info = Info(size: nat, modified: string)
  datatype Kind = FileKind | DirectoryKind

  /** A directory's contents, in the order the walk sorts them into. */
  datatype Forest = Empty | Sibling(name: string, node: Node, rest: Forest)
  /** `Other` is anything the walk passes over: symbolic links, devices, sockets. */
  datatype Node = File(info: Info) | Directory(info: Info, children: Forest) | Other

  datatype Row = Row(name: string, kind: Kind, size: nat, modified: string)
  datatype Entry = Entry(path: string, row: Row)

  function Names(f: Forest): set<string>
  {
    match f
    case Empty => {}
    case Sibling(name, _, rest) => {name} + Names(rest)
  }

  predicate ProperName(name: string)
  {
    name != "" && name != "." && name != ".." && '/' !in name
  }

  /** What a file system guarantees, plus the sort: proper, distinct names in ascending order. */
  ghost predicate Sorted(f: Forest)
  {
    match f
    case Empty => true
    case Sibling(name, node, rest) =>
      && ProperName(name)
      && (forall m :: m in Names(rest) ==> Less(name, m))
      && (node.Directory? ==> Sorted(node.children))
      && Sorted(rest)
  }

  // ---- Listing and walking ----

  function Prefix(base: string): string
  {
    if base == "." then "" else base + "/"
  }

  /** `joinRelativePath`; on a cleaned base and a proper name `path.Join` only adds the slash. */
  function JoinRelative(base: string, name: string): string
  {
    Prefix(base) + name
  }

  lemma JoinRelativeIsPathJoin(base: string, name: string)
    requires base != "." && Paths.CleanParts(Paths.Split(base)) && ProperName(name)
    ensures JoinRelative(base, name) == Paths.Clean(base + "/" + name)
  {
    Paths.SplitAppend(base, name);
    Paths.SplitSingle(name);
    Paths.CleanPartsCanonical(Paths.Split(base) + [name]);
    Paths.JoinSplit(base + "/" + name);
    Paths.CanonicalFixed(Paths.Split(base) + [name]);
  }

  predicate Skipped(path: string, node: Node)
  {
    Paths.CleanRelativePath(path).Err? || node.Other?
  }

  function NewEntry(path: string, name: string, node: Node): Entry
    requires !node.Other?
  {
    Entry(path, match node
                case File(info) => Row(name, FileKind, info.size, info.modified)
                case Directory(info, _) => Row(name, DirectoryKind, 0, info.modified))
  }

  /** The plain one-shot listing: every eligible path below `base`, in preorder. */
  function Listing(base: string, f: Forest): seq<Entry>
    decreases f
  {
    match f
    case Empty => []
    case Sibling(name, node, rest) => NodeListing(JoinRelative(base, name), name, node) + Listing(base, rest)
  }

  function NodeListing(path: string, name: string, node: Node): seq<Entry>
    decreases node
  {
    if Skipped(path, node) then []
    else [NewEntry(path, name, node)] + if node.Directory? then Listing(path, node.children) else []
  }

  /** One look of the walk: the start of a directory, a sibling passed over, or an entry. Before
      each look the walk first checks whether its batch is already full. */
  datatype Visit = Enter | Pass | Found(entry: Entry)

  function DirectoryVisits(base: string, f: Forest): seq<Visit>
    decreases f, 1
  {
    [Enter] + SiblingVisits(base, f)
  }

  function SiblingVisits(base: string, f: Forest): seq<Visit>
    decreases f, 0
  {
    match f
    case Empty => []
    case Sibling(name, node, rest) => NodeVisits(JoinRelative(base, name), name, node) + SiblingVisits(base, rest)
  }

  function NodeVisits(path: string, name: string, node: Node): seq<Visit>
    decreases node
  {
    if Skipped(path, node) then [Pass]
    else [Found(NewEntry(path, name, node))] + if node.Directory? then DirectoryVisits(path, node.children) else []
  }

  function Entries(vs: seq<Visit>): seq<Entry>
  {
    if vs == [] then []
    else if vs[0].Found? then [vs[0].entry] + Entries(vs[1..])
    else Entries(vs[1..])
  }

  lemma {:induction false} EntriesAppend(a: seq<Visit>, b: seq<Visit>)
    ensures Entries(a + b) == Entries(a) + Entries(b)
  {
    if a == [] {
      assert a + b == b;
    } else {
      EntriesAppend(a[1..], b);
      assert (a + b)[1..] == a[1..] + b;
    }
  }

  /** The walk finds exactly the listing. */
  lemma {:induction false} VisitsFindListing(base: string, f: Forest)
    ensures Entries(SiblingVisits(base, f)) == Listing(base, f)
    ensures Entries(DirectoryVisits(base, f)) == Listing(base, f)
    decreases f
  {
    match f
    case Empty =>
    case Sibling(name, node, rest) =>
      var path := JoinRelative(base, name);
      VisitsFindListing(base, rest);
      EntriesAppend(NodeVisits(path, name, node), SiblingVisits(base, rest));
      if !Skipped(path, node) && node.Directory? {
        VisitsFindListing(path, node.children);
        EntriesAppend([Found(NewEntry(path, name, node))], DirectoryVisits(path, node.children));
      }
      assert DirectoryVisits(base, f)[1..] == SiblingVisits(base, f);
  }

  // ---- One batch ----

  datatype Batch = Batch(entries: seq<Entry>, complete: bool)

  /** Looking at `vs` one after the other, stopping as soon as a look finds no room left. */
  function Collect(vs: seq<Visit>, cursor: string, room: nat): (batch: Batch)
    ensures |batch.entries| <= room
    ensures !batch.complete ==> |batch.entries| == room
  {
    if vs == [] then Batch([], true)
    else if room == 0 then Batch([], false)
    else if Hits(cursor, vs[0]) then
      var batch := Collect(vs[1..], cursor, room - 1);
      Batch([vs[0].entry] + batch.entries, batch.complete)
    else Collect(vs[1..], cursor, room)
  }

  predicate Hits(cursor: string, v: Visit)
  {
    v.Found? && Less(cursor, v.entry.path)
  }

  /** The batch so far, continued over `vs`. */
  function Continue(found: Batch, vs: seq<Visit>, cursor: string, limit: nat): Batch
    requires |found.entries| <= limit
  {
    if !found.complete then found
    else
      var more := Collect(vs, cursor, limit - |found.entries|);
      Batch(found.entries + more.entries, more.complete)
  }

  lemma {:induction false} CollectAppend(a: seq<Visit>, b: seq<Visit>, cursor: string, room: nat)
    ensures Collect(a + b, cursor, room) == Continue(Collect(a, cursor, room), b, cursor, room)
  {
    if a == [] {
      assert a + b == b;
    } else if room > 0 {
      assert (a + b)[1..] == a[1..] + b;
      CollectAppend(a[1..], b, cursor, if Hits(cursor, a[0]) then room - 1 else room);
    }
  }

  lemma ContinueAppend(found: Batch, a: seq<Visit>, b: seq<Visit>, cursor: string, limit: nat)
    requires |found.entries| <= limit
    ensures Continue(found, a + b, cursor, limit) == Continue(Continue(found, a, cursor, limit), b, cursor, limit)
  {
    if found.complete {
      CollectAppend(a, b, cursor, limit - |found.entries|);
    }
  }

  /** `collectBatch`: the recursive walk with its growing slice and its flag. An I/O error at any
      directory or entry abandons the batch. */
  class Collector {
    const cursor: string
    const limit: nat
    /** No directory or entry fails to be read. */
    const steady: bool
    var entries: seq<Entry>
    var complete: bool

    constructor (cursor: string, limit: nat, steady: bool)
      ensures this.cursor == cursor && this.limit == limit && this.steady == steady
      ensures entries == [] && complete
    {
      this.cursor := cursor;
      this.limit := limit;
      this.steady := steady;
      entries := [];
      complete := true;
    }

    ghost predicate Valid()
      reads this
    {
      |entries| <= limit && (!complete ==> |entries| == limit)
    }

    method Walk(base: string, f: Forest) returns (ok: bool)
      requires Valid() && complete
      modifies this
      ensures Valid() && (steady ==> ok)
      ensures ok ==> Batch(entries, complete) ==
                     Continue(Batch(old(entries), true), DirectoryVisits(base, f), cursor, limit)
      decreases f
    {
      if |entries| >= limit {
        complete := false;
        return true;
      }
      if !steady { if * { return false; } }
      ghost var start := Batch(entries, true);
      ghost var vs := SiblingVisits(base, f);
      assert DirectoryVisits(base, f)[1..] == vs;
      FirstLook(start, DirectoryVisits(base, f), cursor, limit);
      var left := f;
      while left.Sibling?
        invariant Valid()
        invariant Continue(Batch(entries, complete), SiblingVisits(base, left), cursor, limit) ==
                  Continue(start, vs, cursor, limit)
        invariant left == f || left < f
        decreases left
      {
        if |entries| >= limit {
          complete := false;
          return true;
        }
        var path := JoinRelative(base, left.name);
        ContinueAppend(Batch(entries, true), NodeVisits(path, left.name, left.node),
                       SiblingVisits(base, left.rest), cursor, limit);
        ok := VisitNode(path, left.name, left.node);
        if !ok { return false; }
        left := left.rest;
      }
      return true;
    }

    /** The body of the sibling loop once it has found room. */
    method VisitNode(path: string, name: string, node: Node) returns (ok: bool)
      requires Valid() && complete && |entries| < limit
      modifies this
      ensures Valid() && (steady ==> ok)
      ensures ok ==> Batch(entries, complete) ==
                     Continue(Batch(old(entries), true), NodeVisits(path, name, node), cursor, limit)
      decreases node
    {
      FirstLook(Batch(entries, true), NodeVisits(path, name, node), cursor, limit);
      if Paths.CleanRelativePath(path).Err? {
        return true;
      }
      if !steady { if * { return false; } }
      if node.Other? {
        return true;
      }
      if Less(cursor, path) {
        entries := entries + [NewEntry(path, name, node)];
      }
      if node.Directory? {
        assert NodeVisits(path, name, node)[1..] == DirectoryVisits(path, node.children);
        ok := Walk(path, node.children);
        return ok;
      }
      return true;
    }
  }

  lemma FirstLook(found: Batch, vs: seq<Visit>, cursor: string, limit: nat)
    requires vs != [] && found.complete && |found.entries| < limit
    ensures Continue(found, vs, cursor, limit) ==
            Continue(Batch(found.entries + if Hits(cursor, vs[0]) then [vs[0].entry] else [], true), vs[1..], cursor, limit)
  {
    assert found.entries + [] == found.entries;
  }

  method CollectBatch(f: Forest, cursor: string, limit: nat, steady: bool) returns (ok: bool, batch: Batch)
    ensures steady ==> ok
    ensures ok ==> batch == Collect(DirectoryVisits(".", f), cursor, limit)
  {
    var collector := new Collector(cursor, limit, steady);
    ok := collector.Walk(".", f);
    batch := Batch(collector.entries, collector.complete);
  }

  // ---- What a batch contains ----

  /** The entries past the cursor, in listing order. */
  function After(cursor: string, es: seq<Entry>): seq<Entry>
  {
    if es == [] then []
    else if Less(cursor, es[0].path) then [es[0]] + After(cursor, es[1..])
    else After(cursor, es[1..])
  }

  function Take(es: seq<Entry>, n: nat): seq<Entry>
  {
    if n == 0 || es == [] then [] else [es[0]] + Take(es[1..], n - 1)
  }

  lemma {:induction false} AfterAppend(cursor: string, a: seq<Entry>, b: seq<Entry>)
    ensures After(cursor, a + b) == After(cursor, a) + After(cursor, b)
  {
    if a == [] {
      assert a + b == b;
    } else {
      AfterAppend(cursor, a[1..], b);
      assert (a + b)[1..] == a[1..] + b;
    }
  }

  lemma {:induction false} AfterMembers(cursor: string, es: seq<Entry>)
    ensures forall e :: e in After(cursor, es) <==> e in es && Less(cursor, e.path)
  {
    if es != [] {
      AfterMembers(cursor, es[1..]);
    }
  }

  lemma {:induction false} AfterAll(cursor: string, es: seq<Entry>)
    requires forall e :: e in es ==> Less(cursor, e.path)
    ensures After(cursor, es) == es
  {
    if es != [] {
      assert es[0] in es;
      AfterAll(cursor, es[1..]);
    }
  }

  lemma {:induction false} AfterNone(cursor: string, es: seq<Entry>)
    requires forall e :: e in es ==> !Less(cursor, e.path)
    ensures After(cursor, es) == []
  {
    if es != [] {
      assert es[0] in es;
      AfterNone(cursor, es[1..]);
    }
  }

  lemma AfterFirstLook(vs: seq<Visit>, cursor: string)
    requires vs != []
    ensures After(cursor, Entries(vs)) ==
            if Hits(cursor, vs[0]) then [vs[0].entry] + After(cursor, Entries(vs[1..])) else After(cursor, Entries(vs[1..]))
  {
    if vs[0].Found? {
      assert Entries(vs)[1..] == Entries(vs[1..]);
    }
  }

  /** A batch is the first entries past the cursor, as many as there is room for. */
  lemma {:induction false} CollectIsFirstAfterCursor(vs: seq<Visit>, cursor: string, room: nat)
    ensures Collect(vs, cursor, room).entries == Take(After(cursor, Entries(vs)), room)
  {
    if vs != [] && room > 0 {
      AfterFirstLook(vs, cursor);
      CollectIsFirstAfterCursor(vs[1..], cursor, if Hits(cursor, vs[0]) then room - 1 else room);
      var rest := After(cursor, Entries(vs[1..]));
      assert Hits(cursor, vs[0]) ==> ([vs[0].entry] + rest)[1..] == rest;
    }
  }

  /** A batch is complete exactly when there was still room at the very last look. */
  lemma {:induction false} CompleteMeansRoomAtLastLook(vs: seq<Visit>, cursor: string, room: nat)
    requires vs != []
    ensures Collect(vs, cursor, room).complete <==> |After(cursor, Entries(vs[..|vs| - 1]))| < room
  {
    var init, rest := vs[..|vs| - 1], vs[1..];
    if init != [] {
      AfterFirstLook(init, cursor);
      assert init[1..] == rest[..|rest| - 1];
      if room > 0 {
        CompleteMeansRoomAtLastLook(rest, cursor, if Hits(cursor, vs[0]) then room - 1 else room);
      }
    } else {
      assert rest == [] && Entries(init) == [];
    }
  }

  lemma {:induction false} TakeFacts(es: seq<Entry>, n: nat)
    ensures |Take(es, n)| == (if n < |es| then n else |es|)
    ensures Take(es, n) <= es
  {
    if n != 0 && es != [] {
      TakeFacts(es[1..], n - 1);
      assert es == [es[0]] + es[1..];
    }
  }

  /** A complete batch holds everything past the cursor. */
  lemma {:induction false} CompleteBatchHoldsRest(vs: seq<Visit>, cursor: string, room: nat)
    requires Collect(vs, cursor, room).complete
    ensures Collect(vs, cursor, room).entries == After(cursor, Entries(vs))
  {
    if vs != [] {
      AfterFirstLook(vs, cursor);
      CompleteBatchHoldsRest(vs[1..], cursor, if Hits(cursor, vs[0]) then room - 1 else room);
    }
  }

  /** The facts about a batch that the scan loops use. */
  lemma BatchFacts(vs: seq<Visit>, cursor: string, limit: nat)
    ensures var batch := Collect(vs, cursor, limit);
            var rest := After(cursor, Entries(vs));
            && batch.entries <= rest
            && (batch.complete ==> batch.entries == rest)
            && (!batch.complete ==> |batch.entries| == limit)
            && (forall e :: e in batch.entries ==> e in Entries(vs) && Less(cursor, e.path))
  {
    CollectIsFirstAfterCursor(vs, cursor, limit);
    TakeFacts(After(cursor, Entries(vs)), limit);
    AfterMembers(cursor, Entries(vs));
    if Collect(vs, cursor, limit).complete {
      CompleteBatchHoldsRest(vs, cursor, limit);
    }
  }
}
