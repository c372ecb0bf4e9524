/** Scanning a whole tree in batches: what the batches put end to end amount to, for every tree
    and every batch size, and the service methods that upsert them into the index. */
module CatalogScan {
  import opened TextOrder
  import opened CatalogWalk
  import opened CatalogOrder

  function Last(es: seq<Entry>): string
    requires es != []
  {
    es[|es| - 1].path
  }

  // ---- The scan loop ----

  lemma {:induction false} AfterShrinks(es: seq<Entry>, low: string, high: string)
    requires Less(low, high)
    ensures |After(high, es)| <= |After(low, es)|
    ensures (exists e :: e in es && e.path == high) ==> |After(high, es)| < |After(low, es)|
  {
    if es != [] {
      AfterShrinks(es[1..], low, high);
      if Less(high, es[0].path) { Transitive(low, high, es[0].path); }
      Trichotomy(high, high);
    }
  }

  /** A batch that is not complete is exactly full and moves the cursor strictly up, past
      something that is no longer ahead. */
  lemma CursorAdvances(vs: seq<Visit>, cursor: string, limit: nat)
    requires limit >= 1 && !Collect(vs, cursor, limit).complete
    ensures var entries := Collect(vs, cursor, limit).entries;
            && |entries| == limit
            && Less(cursor, Last(entries))
            && |After(Last(entries), Entries(vs))| < |After(cursor, Entries(vs))|
  {
    BatchFacts(vs, cursor, limit);
    var entries := Collect(vs, cursor, limit).entries;
    assert entries[|entries| - 1] in entries;
    AfterShrinks(Entries(vs), cursor, Last(entries));
  }

  /** The batches from `cursor` until one is complete, put end to end. */
  function Emitted(vs: seq<Visit>, limit: nat, cursor: string): seq<Entry>
    requires limit >= 1
    decreases |After(cursor, Entries(vs))|
  {
    var batch := Collect(vs, cursor, limit);
    if batch.complete then batch.entries
    else
      CursorAdvances(vs, cursor, limit);
      batch.entries + Emitted(vs, limit, Last(batch.entries))
  }

  lemma {:induction false} EmittedAreAhead(vs: seq<Visit>, limit: nat, cursor: string)
    requires limit >= 1
    ensures forall e :: e in Emitted(vs, limit, cursor) ==> e in Entries(vs) && Less(cursor, e.path)
    decreases |After(cursor, Entries(vs))|
  {
    BatchFacts(vs, cursor, limit);
    var batch := Collect(vs, cursor, limit);
    if !batch.complete {
      CursorAdvances(vs, cursor, limit);
      EmittedAreAhead(vs, limit, Last(batch.entries));
      forall e | e in Emitted(vs, limit, Last(batch.entries)) ensures Less(cursor, e.path) {
        Transitive(cursor, Last(batch.entries), e.path);
      }
    }
  }

  // ---- When do the batches give back the listing? ----

  /** The cursor saved after the first `k` entries. */
  function CursorAt(es: seq<Entry>, k: nat): string
    requires k <= |es|
  {
    if k == 0 then "" else es[k - 1].path
  }

  /** Position `k` is a clean cut: the cursor there has everything before it behind and
      everything after it ahead. */
  ghost predicate CleanCut(es: seq<Entry>, k: nat)
    requires k <= |es|
  {
    After(CursorAt(es, k), es) == es[k..]
  }

  /** The walk looks at something after its last entry. */
  ghost predicate LooksPastEnd(vs: seq<Visit>)
  {
    vs != [] && !vs[|vs| - 1].Found?
  }

  /** Every `limit`-th position after `k`, at each of which a scan with this batch size saves a
      cursor, is a clean cut. */
  ghost predicate CleanCuts(vs: seq<Visit>, limit: nat, k: nat)
    requires limit >= 1
    decreases |Entries(vs)| - k
  {
    var es, next := Entries(vs), k + limit;
    next < |es| || (next == |es| && LooksPastEnd(vs)) ==> CleanCut(es, next) && CleanCuts(vs, limit, next)
  }

  /** With the whole rest fitting exactly, the batch is complete unless something follows it. */
  lemma ExactFit(vs: seq<Visit>, cursor: string, limit: nat)
    requires limit >= 1 && |After(cursor, Entries(vs))| == limit
    ensures Collect(vs, cursor, limit).complete ==> !LooksPastEnd(vs)
    ensures !LooksPastEnd(vs) && Less(cursor, CursorAt(Entries(vs), |Entries(vs)|)) ==> Collect(vs, cursor, limit).complete
  {
    if vs != [] {
      var last := vs[|vs| - 1];
      var init := vs[..|vs| - 1];
      CompleteMeansRoomAtLastLook(vs, cursor, limit);
      assert vs == init + [last];
      EntriesAppend(init, [last]);
      var tail := Entries([last]);
      assert tail == if last.Found? then [last.entry] else [];
      AfterAppend(cursor, Entries(init), tail);
      if last.Found? {
        assert After(cursor, tail) == if Less(cursor, last.entry.path) then [last.entry] else [];
      }
    }
  }

  lemma FullPrefix(es: seq<Entry>, k: nat, limit: nat, entries: seq<Entry>)
    requires k <= |es| && limit >= 1 && |entries| == limit && entries <= es[k..]
    ensures k + limit <= |es| && entries == es[k..k + limit]
    ensures Last(entries) == CursorAt(es, k + limit)
  {
  }

  /** From a clean cut, a batch that is not complete is the next `limit` entries, and something
      is left to look at. */
  lemma FullBatch(vs: seq<Visit>, limit: nat, k: nat)
    requires limit >= 1 && k <= |Entries(vs)| && CleanCut(Entries(vs), k)
    requires !Collect(vs, CursorAt(Entries(vs), k), limit).complete
    ensures var es, next := Entries(vs), k + limit;
            && next <= |es| && (next == |es| ==> LooksPastEnd(vs))
            && Collect(vs, CursorAt(es, k), limit).entries == es[k..next]
            && CursorAt(es, next) == Last(es[k..next])
  {
    var es, cursor := Entries(vs), CursorAt(Entries(vs), k);
    var batch := Collect(vs, cursor, limit);
    BatchFacts(vs, cursor, limit);
    FullPrefix(es, k, limit, batch.entries);
    if k + limit == |es| {
      CursorAdvances(vs, cursor, limit);
      ExactFit(vs, cursor, limit);
    }
  }

  lemma NextFullBatch(vs: seq<Visit>, limit: nat, k: nat)
    requires limit >= 1 && k <= |Entries(vs)| && CleanCut(Entries(vs), k)
    requires !Collect(vs, CursorAt(Entries(vs), k), limit).complete
    ensures var es, next := Entries(vs), k + limit;
            && next <= |es| && (next == |es| ==> LooksPastEnd(vs))
            && Emitted(vs, limit, CursorAt(es, k)) == es[k..next] + Emitted(vs, limit, CursorAt(es, next))
  {
    FullBatch(vs, limit, k);
  }

  /** From a clean cut, clean cuts later on suffice. */
  lemma {:induction false} CleanCutsSuffice(vs: seq<Visit>, limit: nat, k: nat)
    requires limit >= 1 && k <= |Entries(vs)| && CleanCut(Entries(vs), k) && CleanCuts(vs, limit, k)
    ensures Emitted(vs, limit, CursorAt(Entries(vs), k)) == Entries(vs)[k..]
    decreases |Entries(vs)| - k
  {
    if Collect(vs, CursorAt(Entries(vs), k), limit).complete {
      CompleteBatchHoldsRest(vs, CursorAt(Entries(vs), k), limit);
    } else {
      NextFullBatch(vs, limit, k);
      CleanCutsSuffice(vs, limit, k + limit);
      SplitAt(Entries(vs), k, k + limit);
    }
  }

  lemma SplitAt(es: seq<Entry>, i: nat, j: nat)
    requires i <= j <= |es|
    ensures es[i..] == es[i..j] + es[j..]
  {
  }

  lemma FirstEmitted(vs: seq<Visit>, limit: nat, cursor: string)
    requires limit >= 1 && After(cursor, Entries(vs)) != []
    ensures Emitted(vs, limit, cursor) != [] && Emitted(vs, limit, cursor)[0] == After(cursor, Entries(vs))[0]
  {
    CollectIsFirstAfterCursor(vs, cursor, limit);
  }

  lemma AfterSecondPart(a: seq<Entry>, b: seq<Entry>, cursor: string)
    requires forall e :: e in b ==> Less(cursor, e.path)
    ensures After(cursor, a + b) == After(cursor, a) + b
    ensures forall e :: e in After(cursor, a) ==> e in a
  {
    AfterAll(cursor, b);
    AfterAppend(cursor, a, b);
    AfterMembers(cursor, a);
  }

  lemma NotTwice(es: seq<Entry>, k: nat, e: Entry)
    requires k < |es| && Distinct(es) && e in es[..k]
    ensures e != es[k]
  {
  }

  /** What is ahead of a saved cursor, when the scan from it gives exactly the entries from
      `k` on, is exactly those entries. */
  lemma CutIsClean(vs: seq<Visit>, limit: nat, k: nat)
    requires limit >= 1 && 0 < k <= |Entries(vs)| && Distinct(Entries(vs))
    requires Emitted(vs, limit, CursorAt(Entries(vs), k)) == Entries(vs)[k..]
    ensures CleanCut(Entries(vs), k)
  {
    var es := Entries(vs);
    var cursor := CursorAt(es, k);
    var before := After(cursor, es[..k]);
    EmittedAreAhead(vs, limit, cursor);
    assert es == es[..k] + es[k..];
    AfterSecondPart(es[..k], es[k..], cursor);
    if before != [] {
      FirstEmitted(vs, limit, cursor);
      NotTwice(es, k, before[0]);
      assert false;
    }
  }

  /** Where more is to come, the next batch from a clean cut is not complete. */
  lemma NotYetComplete(vs: seq<Visit>, limit: nat, k: nat)
    requires limit >= 1 && k <= |Entries(vs)| && CleanCut(Entries(vs), k)
    requires k + limit < |Entries(vs)| || (k + limit == |Entries(vs)| && LooksPastEnd(vs))
    ensures !Collect(vs, CursorAt(Entries(vs), k), limit).complete
  {
    var cursor := CursorAt(Entries(vs), k);
    if k + limit == |Entries(vs)| {
      ExactFit(vs, cursor, limit);
    } else if Collect(vs, cursor, limit).complete {
      CompleteBatchHoldsRest(vs, cursor, limit);
    }
  }

  /** A scan that gives the rest of the listing goes on to do so from its next cursor. */
  lemma RestFromNext(vs: seq<Visit>, limit: nat, k: nat)
    requires limit >= 1 && k <= |Entries(vs)| && CleanCut(Entries(vs), k)
    requires !Collect(vs, CursorAt(Entries(vs), k), limit).complete
    requires Emitted(vs, limit, CursorAt(Entries(vs), k)) == Entries(vs)[k..]
    ensures k + limit <= |Entries(vs)|
    ensures Emitted(vs, limit, CursorAt(Entries(vs), k + limit)) == Entries(vs)[k + limit..]
  {
    var es := Entries(vs);
    NextFullBatch(vs, limit, k);
    SplitAt(es, k, k + limit);
    SameTail(es[k..k + limit], Emitted(vs, limit, CursorAt(es, k + limit)), es[k + limit..]);
  }

  lemma SameTail(a: seq<Entry>, b: seq<Entry>, c: seq<Entry>)
    requires a + b == a + c
    ensures b == c
  {
    assert (a + b)[|a|..] == b && (a + c)[|a|..] == c;
  }

  /** Clean cuts are also necessary. */
  lemma {:induction false} CleanCutsNecessary(vs: seq<Visit>, limit: nat, k: nat)
    requires limit >= 1 && k <= |Entries(vs)| && Distinct(Entries(vs)) && CleanCut(Entries(vs), k)
    requires Emitted(vs, limit, CursorAt(Entries(vs), k)) == Entries(vs)[k..]
    ensures CleanCuts(vs, limit, k)
    decreases |Entries(vs)| - k
  {
    var next := k + limit;
    if next < |Entries(vs)| || (next == |Entries(vs)| && LooksPastEnd(vs)) {
      NotYetComplete(vs, limit, k);
      RestFromNext(vs, limit, k);
      CutIsClean(vs, limit, next);
      CleanCutsNecessary(vs, limit, next);
    }
  }

  /** For every walk and batch size: the batches put end to end are exactly what the walk finds,
      each path once and in walk order, if and only if every saved cursor is a clean cut. */
  lemma ScanExactIffCleanCuts(vs: seq<Visit>, limit: nat)
    requires limit >= 1 && Distinct(Entries(vs)) && After("", Entries(vs)) == Entries(vs)
    ensures Emitted(vs, limit, "") == Entries(vs) <==> CleanCuts(vs, limit, 0)
  {
    assert CleanCut(Entries(vs), 0);
    if CleanCuts(vs, limit, 0) {
      CleanCutsSuffice(vs, limit, 0);
    } else if Emitted(vs, limit, "") == Entries(vs) {
      CleanCutsNecessary(vs, limit, 0);
    }
  }

  lemma {:induction false} AscendingCutsClean(vs: seq<Visit>, limit: nat, k: nat)
    requires limit >= 1 && Ascending(Entries(vs))
    ensures CleanCuts(vs, limit, k)
    decreases |Entries(vs)| - k
  {
    var next := k + limit;
    if next <= |Entries(vs)| {
      AscendingCutClean(Entries(vs), next);
      AscendingCutsClean(vs, limit, next);
    }
  }

  lemma AfterParts(cursor: string, es: seq<Entry>, k: nat)
    requires k <= |es|
    ensures After(cursor, es) == After(cursor, es[..k]) + After(cursor, es[k..])
  {
    assert es == es[..k] + es[k..];
    AfterAppend(cursor, es[..k], es[k..]);
  }

  lemma NoneBehindAscending(es: seq<Entry>, k: nat)
    requires 0 < k <= |es| && Ascending(es)
    ensures After(es[k - 1].path, es[..k]) == []
  {
    var cursor := es[k - 1].path;
    forall e | e in es[..k] ensures !Less(cursor, e.path) {
      var i :| 0 <= i < k && es[i] == e;
      Trichotomy(cursor, e.path);
    }
    AfterNone(cursor, es[..k]);
  }

  lemma AllAheadAscending(es: seq<Entry>, k: nat)
    requires 0 < k <= |es| && Ascending(es)
    ensures After(es[k - 1].path, es[k..]) == es[k..]
  {
    forall e | e in es[k..] ensures Less(es[k - 1].path, e.path) {
      var i :| 0 <= i < |es[k..]| && es[k..][i] == e;
      assert es[k + i] == e;
    }
    AfterAll(es[k - 1].path, es[k..]);
  }

  lemma AscendingCutClean(es: seq<Entry>, k: nat)
    requires 0 < k <= |es| && Ascending(es)
    ensures CleanCut(es, k)
  {
    NoneBehindAscending(es, k);
    AllAheadAscending(es, k);
    AfterParts(es[k - 1].path, es, k);
  }

  lemma CutOrders(vs: seq<Visit>, i: nat, j: nat)
    requires i < j < |Entries(vs)| && CleanCuts(vs, i + 1, 0)
    ensures Less(Entries(vs)[i].path, Entries(vs)[j].path)
  {
    var es := Entries(vs);
    assert CleanCut(es, i + 1);
    AfterMembers(CursorAt(es, i + 1), es);
    assert es[j] == es[i + 1..][j - i - 1];
    assert es[j] in es[i + 1..];
  }

  ghost predicate ExactForEveryBatchSize(vs: seq<Visit>, listing: seq<Entry>)
  {
    forall limit: nat :: limit >= 1 ==> Emitted(vs, limit, "") == listing
  }

  lemma ExactThenAscending(vs: seq<Visit>)
    requires Distinct(Entries(vs)) && After("", Entries(vs)) == Entries(vs)
    requires ExactForEveryBatchSize(vs, Entries(vs))
    ensures Ascending(Entries(vs))
  {
    forall i, j | 0 <= i < j < |Entries(vs)| ensures Less(Entries(vs)[i].path, Entries(vs)[j].path) {
      assert Emitted(vs, i + 1, "") == Entries(vs);
      ScanExactIffCleanCuts(vs, i + 1);
      CutOrders(vs, i, j);
    }
  }

  lemma AscendingThenExact(vs: seq<Visit>, limit: nat)
    requires limit >= 1 && Ascending(Entries(vs)) && After("", Entries(vs)) == Entries(vs)
    ensures Emitted(vs, limit, "") == Entries(vs)
  {
    AscendingCutsClean(vs, limit, 0);
    assert CleanCut(Entries(vs), 0);
    CleanCutsSuffice(vs, limit, 0);
  }

  /** The scan gives the listing whatever the batch size if and only if no directory of the
      tree is split from its contents by a later sibling. */
  lemma ScanExactForEveryBatchSizeIffNoSplit(f: Forest)
    requires Sorted(f)
    ensures ExactForEveryBatchSize(DirectoryVisits(".", f), Listing(".", f)) <==> NoSplit(".", f)
  {
    var vs := DirectoryVisits(".", f);
    VisitsFindListing(".", f);
    ListingAfterEmptyCursor(f);
    ListingDistinct(".", f);
    AscendingIffNoSplit(".", f);
    if NoSplit(".", f) {
      forall limit: nat | limit >= 1 ensures Emitted(vs, limit, "") == Listing(".", f) {
        AscendingThenExact(vs, limit);
      }
    } else if ExactForEveryBatchSize(vs, Listing(".", f)) {
      ExactThenAscending(vs);
    }
  }

  /** In a tree without splits, the scan from any cursor emits exactly what is past it. */
  lemma {:induction false} AscendingScanIsRest(vs: seq<Visit>, limit: nat, cursor: string)
    requires limit >= 1 && Ascending(Entries(vs))
    ensures Emitted(vs, limit, cursor) == After(cursor, Entries(vs))
    decreases |After(cursor, Entries(vs))|
  {
    var es := Entries(vs);
    var batch := Collect(vs, cursor, limit);
    BatchFacts(vs, cursor, limit);
    if !batch.complete {
      CursorAdvances(vs, cursor, limit);
      AscendingScanIsRest(vs, limit, Last(batch.entries));
      AfterSuffix(es, cursor);
      var k := |es| - |After(cursor, es)| + limit;
      assert Last(batch.entries) == es[k - 1].path;
      AscendingCutClean(es, k);
      assert After(cursor, es) == batch.entries + es[k..];
    }
  }

  lemma {:induction false} AfterSuffix(es: seq<Entry>, cursor: string)
    requires Ascending(es)
    ensures |After(cursor, es)| <= |es| && After(cursor, es) == es[|es| - |After(cursor, es)|..]
  {
    if es != [] {
      AfterSuffix(es[1..], cursor);
      if Less(cursor, es[0].path) {
        forall e | e in es ensures Less(cursor, e.path) {
          var i :| 0 <= i < |es| && es[i] == e;
          if i > 0 { Transitive(cursor, es[0].path, e.path); }
        }
        AfterAll(cursor, es);
      }
    }
  }
}
