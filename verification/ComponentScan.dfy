/** The scan with one thing changed: the cursor is compared with a path component by component,
    which is the order of the walk. It is exact on every sorted tree, whatever the names. */
module ComponentScan {
  import Paths
  import opened TextOrder
  import opened CatalogWalk
  import opened CatalogOrder
  import opened CatalogScan
  import opened ComponentOrder

  predicate Before(a: string, b: string)
  {
    LessParts(Paths.Split(a), Paths.Split(b))
  }

  lemma {:induction false} LessPartsIrreflexive(a: seq<string>)
    ensures !LessParts(a, a)
  {
    if a != [] {
      LessPartsIrreflexive(a[1..]);
    }
  }

  lemma {:induction false} LessPartsTransitive(a: seq<string>, b: seq<string>, c: seq<string>)
    requires LessParts(a, b) && LessParts(b, c)
    ensures LessParts(a, c)
  {
    if a != [] {
      if a[0] == b[0] && b[0] == c[0] {
        LessPartsTransitive(a[1..], b[1..], c[1..]);
      } else if a[0] != b[0] && b[0] != c[0] {
        Transitive(a[0], b[0], c[0]);
        Trichotomy(a[0], c[0]);
      }
    }
  }

  // ---- One batch ----

  predicate Ahead(cursor: string, v: Visit)
  {
    v.Found? && Before(cursor, v.entry.path)
  }

  /** `Collect`, but for the comparison. */
  function Gather(vs: seq<Visit>, cursor: string, room: nat): (batch: Batch)
    ensures !batch.complete ==> |batch.entries| == room
  {
    if vs == [] then Batch([], true)
    else if room == 0 then Batch([], false)
    else if Ahead(cursor, vs[0]) then
      var batch := Gather(vs[1..], cursor, room - 1);
      Batch([vs[0].entry] + batch.entries, batch.complete)
    else Gather(vs[1..], cursor, room)
  }

  function Past(cursor: string, es: seq<Entry>): seq<Entry>
  {
    if es == [] then []
    else if Before(cursor, es[0].path) then [es[0]] + Past(cursor, es[1..])
    else Past(cursor, es[1..])
  }

  lemma PastFirstLook(vs: seq<Visit>, cursor: string)
    requires vs != []
    ensures Past(cursor, Entries(vs)) ==
            if Ahead(cursor, vs[0]) then [vs[0].entry] + Past(cursor, Entries(vs[1..])) else Past(cursor, Entries(vs[1..]))
  {
    if vs[0].Found? {
      assert Entries(vs)[1..] == Entries(vs[1..]);
    }
  }

  lemma {:induction false} GatheredIsFirst(vs: seq<Visit>, cursor: string, room: nat)
    ensures var batch := Gather(vs, cursor, room);
            batch.entries <= Past(cursor, Entries(vs)) && (batch.complete ==> batch.entries == Past(cursor, Entries(vs)))
  {
    if vs != [] && room > 0 {
      PastFirstLook(vs, cursor);
      GatheredIsFirst(vs[1..], cursor, if Ahead(cursor, vs[0]) then room - 1 else room);
    }
  }

  lemma {:induction false} PastMembers(cursor: string, es: seq<Entry>)
    ensures forall e :: e in Past(cursor, es) <==> e in es && Before(cursor, e.path)
  {
    if es != [] {
      PastMembers(cursor, es[1..]);
    }
  }

  lemma {:induction false} PastShrinks(es: seq<Entry>, low: string, high: string)
    requires Before(low, high)
    ensures |Past(high, es)| <= |Past(low, es)|
    ensures (exists e :: e in es && e.path == high) ==> |Past(high, es)| < |Past(low, es)|
  {
    if es != [] {
      PastShrinks(es[1..], low, high);
      if Before(high, es[0].path) {
        LessPartsTransitive(Paths.Split(low), Paths.Split(high), Paths.Split(es[0].path));
      }
      LessPartsIrreflexive(Paths.Split(high));
    }
  }

  lemma NextCursorAdvances(vs: seq<Visit>, cursor: string, limit: nat)
    requires limit >= 1 && !Gather(vs, cursor, limit).complete
    ensures |Past(Last(Gather(vs, cursor, limit).entries), Entries(vs))| < |Past(cursor, Entries(vs))|
  {
    GatheredIsFirst(vs, cursor, limit);
    PastMembers(cursor, Entries(vs));
    var entries := Gather(vs, cursor, limit).entries;
    assert entries[limit - 1] in Past(cursor, Entries(vs));
    PastShrinks(Entries(vs), cursor, Last(entries));
  }

  /** The batches from `cursor` until one is complete, put end to end. */
  function Scanned(vs: seq<Visit>, limit: nat, cursor: string): seq<Entry>
    requires limit >= 1
    decreases |Past(cursor, Entries(vs))|
  {
    var batch := Gather(vs, cursor, limit);
    if batch.complete then batch.entries
    else
      NextCursorAdvances(vs, cursor, limit);
      batch.entries + Scanned(vs, limit, Last(batch.entries))
  }

  // ---- Exact on every sorted tree ----

  /** The walk finds its entries in the cursor's own order. */
  ghost predicate InOrder(es: seq<Entry>)
  {
    forall i, j :: 0 <= i < j < |es| ==> Before(es[i].path, es[j].path)
  }

  lemma {:induction false} AllPast(cursor: string, es: seq<Entry>)
    requires forall e :: e in es ==> Before(cursor, e.path)
    ensures Past(cursor, es) == es
  {
    if es != [] {
      assert es[0] in es;
      AllPast(cursor, es[1..]);
    }
  }

  /** Behind each entry come exactly the later ones. */
  lemma {:induction false} PastAnEntry(es: seq<Entry>, k: nat)
    requires InOrder(es) && k < |es|
    ensures Past(es[k].path, es) == es[k + 1..]
  {
    var cursor := es[k].path;
    LessPartsIrreflexive(Paths.Split(cursor));
    if k == 0 {
      forall e | e in es[1..] ensures Before(cursor, e.path)
      {
        var i :| 0 <= i < |es[1..]| && es[1..][i] == e;
        assert e == es[i + 1];
      }
      AllPast(cursor, es[1..]);
    } else {
      assert Before(es[0].path, cursor);
      if Before(cursor, es[0].path) {
        LessPartsTransitive(Paths.Split(cursor), Paths.Split(es[0].path), Paths.Split(cursor));
      }
      PastAnEntry(es[1..], k - 1);
      assert es[1..][k..] == es[k + 1..];
    }
  }

  lemma {:induction false} ScannedIsRest(vs: seq<Visit>, limit: nat, cursor: string, k: nat)
    requires limit >= 1 && InOrder(Entries(vs)) && k <= |Entries(vs)| && Past(cursor, Entries(vs)) == Entries(vs)[k..]
    ensures Scanned(vs, limit, cursor) == Entries(vs)[k..]
    decreases |Past(cursor, Entries(vs))|
  {
    var es, batch := Entries(vs), Gather(vs, cursor, limit);
    GatheredIsFirst(vs, cursor, limit);
    if !batch.complete {
      NextCursorAdvances(vs, cursor, limit);
      FullPrefix(es, k, limit, batch.entries);
      PastAnEntry(es, k + limit - 1);
      ScannedIsRest(vs, limit, Last(batch.entries), k + limit);
      SplitAt(es, k, k + limit);
    }
  }

  lemma BeyondTheRoot(e: Entry)
    ensures Beyond(".", e) == Paths.Split(e.path)
  {
    assert e.path[0..] == e.path;
  }

  lemma WalkInOrder(f: Forest)
    requires Sorted(f)
    ensures InOrder(Listing(".", f)) && Past("", Listing(".", f)) == Listing(".", f)
  {
    var es := Listing(".", f);
    WalkIsComponentOrder(".", f);
    forall i, j | 0 <= i < j < |es| ensures Before(es[i].path, es[j].path)
    {
      BeyondTheRoot(es[i]);
      BeyondTheRoot(es[j]);
      assert LessParts(Beyond(".", es[i]), Beyond(".", es[j]));
    }
    forall e | e in es ensures Before("", e.path)
    {
      ListingBranches(".", f);
      BeyondTheRoot(e);
      FirstComponent(e.path);
      OthersStart(".", f, e);
      VisibleNames(".", f);
      SortedNames(f);
    }
    AllPast("", es);
  }

  /** With cursors compared by components a scan lists every sorted tree exactly, each path once
      and in walk order, for every batch size, and resumed behind any listed path it lists exactly
      the rest. */
  lemma ComponentScanIsExact(f: Forest, limit: nat)
    requires Sorted(f) && limit >= 1
    ensures var vs, es := DirectoryVisits(".", f), Listing(".", f);
            && Scanned(vs, limit, "") == es
            && forall k :: 0 <= k < |es| ==> Scanned(vs, limit, es[k].path) == es[k + 1..]
  {
    var vs, es := DirectoryVisits(".", f), Listing(".", f);
    VisitsFindListing(".", f);
    WalkInOrder(f);
    ScannedIsRest(vs, limit, "", 0);
    forall k | 0 <= k < |es| ensures Scanned(vs, limit, es[k].path) == es[k + 1..]
    {
      PastAnEntry(es, k);
      ScannedIsRest(vs, limit, es[k].path, k + 1);
    }
  }
}
