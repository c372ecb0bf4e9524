/** When does a scan with a given batch size miss nothing? A condition that can be read off the
    listing: at each saved cursor, everything later in the walk must lie past it. */
module CatalogCoverage {
  import opened TextOrder
  import opened CatalogWalk
  import opened CatalogOrder
  import opened CatalogScan

  /** Everything listed later than the entry at the cursor lies past the cursor. */
  ghost predicate LaterAhead(es: seq<Entry>, cursor: string)
  {
    forall i, j :: 0 <= i < j < |es| && es[i].path == cursor ==> Less(cursor, es[j].path)
  }

  /** So it is at every cursor that is saved from this one on. The cursor saved next is the
      `limit`-th listed path past this one. */
  ghost predicate SafeCursors(es: seq<Entry>, limit: nat, cursor: string)
    requires limit >= 1
    decreases |After(cursor, es)|
  {
    var rest := After(cursor, es);
    |rest| >= limit ==>
      var next := rest[limit - 1].path;
      CutShrinks(es, cursor, limit);
      LaterAhead(es, next) && SafeCursors(es, limit, next)
  }

  lemma CutShrinks(es: seq<Entry>, cursor: string, n: nat)
    requires 1 <= n <= |After(cursor, es)|
    ensures var next := After(cursor, es)[n - 1].path;
            Less(cursor, next) && |After(next, es)| < |After(cursor, es)|
  {
    AfterMembers(cursor, es);
    assert After(cursor, es)[n - 1] in After(cursor, es);
    AfterShrinks(es, cursor, After(cursor, es)[n - 1].path);
  }

  /** The first `n` entries past a cursor are all those up to some place in the listing. */
  lemma {:induction false} TakenUpTo(es: seq<Entry>, cursor: string, n: nat) returns (p: nat)
    requires 1 <= n <= |After(cursor, es)|
    ensures p < |es| && es[p] == After(cursor, es)[n - 1]
    ensures After(cursor, es[..p + 1]) == After(cursor, es)[..n]
  {
    if Less(cursor, es[0].path) && n == 1 {
      p := 0;
      assert es[..1] == [es[0]] && es[..1][1..] == [];
    } else {
      var q := TakenUpTo(es[1..], cursor, if Less(cursor, es[0].path) then n - 1 else n);
      p := q + 1;
      assert es[..p + 1][1..] == es[1..][..q + 1];
    }
  }

  lemma {:induction false} MoreListedMoreAfter(es: seq<Entry>, cursor: string, i: nat, j: nat)
    requires i <= j <= |es|
    ensures |After(cursor, es[..i])| <= |After(cursor, es[..j])|
  {
    assert es[..j] == es[..i] + es[i..j];
    AfterAppend(cursor, es[..i], es[i..j]);
  }

  lemma NotListedBefore(es: seq<Entry>, cursor: string, p: nat, j: nat)
    requires Distinct(es) && p < j < |es|
    ensures es[j] !in After(cursor, es[..p + 1])
  {
    AfterMembers(cursor, es[..p + 1]);
  }

  /** What a scan from a cursor emits: its first batch, and what it emits from the cursor after it. */
  lemma EmittedStep(vs: seq<Visit>, limit: nat, cursor: string, p: nat)
    requires limit >= 1 && |After(cursor, Entries(vs))| >= limit && p < |Entries(vs)|
    requires Entries(vs)[p] == After(cursor, Entries(vs))[limit - 1]
    requires After(cursor, Entries(vs)[..p + 1]) == After(cursor, Entries(vs))[..limit]
    ensures var batch := Collect(vs, cursor, limit);
            && batch.entries == After(cursor, Entries(vs)[..p + 1])
            && (batch.complete ==> |After(cursor, Entries(vs))| == limit && Emitted(vs, limit, cursor) == batch.entries)
            && (!batch.complete ==>
                  Emitted(vs, limit, cursor) == batch.entries + Emitted(vs, limit, Entries(vs)[p].path))
  {
    BatchFacts(vs, cursor, limit);
    var batch := Collect(vs, cursor, limit);
    assert batch.entries == After(cursor, Entries(vs))[..limit];
    if !batch.complete {
      CursorAdvances(vs, cursor, limit);
    }
  }

  /** From a cursor with everything from `k` on ahead of it, safe cursors suffice. */
  lemma {:induction false} SafeCursorsSuffice(vs: seq<Visit>, limit: nat, cursor: string, k: nat, j: nat)
    requires limit >= 1 && SafeCursors(Entries(vs), limit, cursor) && k <= j < |Entries(vs)|
    requires forall i :: k <= i < |Entries(vs)| ==> Less(cursor, Entries(vs)[i].path)
    ensures Entries(vs)[j] in Emitted(vs, limit, cursor)
    decreases |After(cursor, Entries(vs))|
  {
    var es := Entries(vs);
    BatchFacts(vs, cursor, limit);
    AfterMembers(cursor, es);
    if !Collect(vs, cursor, limit).complete {
      var p := TakenUpTo(es, cursor, limit);
      EmittedStep(vs, limit, cursor, p);
      CutShrinks(es, cursor, limit);
      if j <= p {
        AfterMembers(cursor, es[..p + 1]);
        assert es[..p + 1][j] == es[j];
      } else {
        SafeCursorsSuffice(vs, limit, es[p].path, p + 1, j);
      }
    }
  }

  lemma FewerAgain(es: seq<Entry>, cursor: string, limit: nat, p: nat)
    requires 1 <= limit <= |After(cursor, es)| && p < |es| && es[p] == After(cursor, es)[limit - 1]
    requires After(cursor, es[..p + 1]) == After(cursor, es)[..limit]
    ensures |After(es[p].path, es[..p + 1])| < limit
  {
    CutShrinks(es, cursor, limit);
    assert es[..p + 1][p] == es[p];
    AfterShrinks(es[..p + 1], cursor, es[p].path);
  }

  /** They are also necessary: what lies behind a saved cursor and later in the walk is missed for
      good. */
  lemma {:induction false} SafeCursorsNecessary(vs: seq<Visit>, limit: nat, cursor: string, k: nat)
    requires limit >= 1 && Distinct(Entries(vs)) && k <= |Entries(vs)|
    requires |After(cursor, Entries(vs)[..k])| < limit
    requires forall i :: k <= i < |Entries(vs)| ==> Entries(vs)[i] in Emitted(vs, limit, cursor)
    ensures SafeCursors(Entries(vs), limit, cursor)
    decreases |After(cursor, Entries(vs))|
  {
    var es := Entries(vs);
    if |After(cursor, es)| >= limit {
      var p := TakenUpTo(es, cursor, limit);
      EmittedStep(vs, limit, cursor, p);
      CutShrinks(es, cursor, limit);
      FewerAgain(es, cursor, limit, p);
      if p < k { MoreListedMoreAfter(es, cursor, p + 1, k); }
      forall j | p < j < |es|
        ensures !Collect(vs, cursor, limit).complete && es[j] in Emitted(vs, limit, es[p].path)
      {
        NotListedBefore(es, cursor, p, j);
        assert es[j] in Emitted(vs, limit, cursor);
      }
      EmittedAreAhead(vs, limit, es[p].path);
      assert LaterAhead(es, es[p].path);
      if !Collect(vs, cursor, limit).complete {
        SafeCursorsNecessary(vs, limit, es[p].path, p + 1);
      }
    }
  }

  ghost predicate Covers(vs: seq<Visit>, limit: nat)
    requires limit >= 1
  {
    forall e :: e in Entries(vs) ==> e in Emitted(vs, limit, "")
  }

  /** A scan misses nothing if and only if, at every cursor it saves, nothing later in the walk
      lies at or before the cursor. */
  lemma ScanCoversIffSafeCursors(vs: seq<Visit>, limit: nat)
    requires limit >= 1 && Distinct(Entries(vs)) && After("", Entries(vs)) == Entries(vs)
    ensures Covers(vs, limit) <==> SafeCursors(Entries(vs), limit, "")
  {
    var es := Entries(vs);
    AfterMembers("", es);
    assert After("", es[..0]) == [];
    if SafeCursors(es, limit, "") {
      forall e | e in es ensures e in Emitted(vs, limit, "")
      {
        var j :| 0 <= j < |es| && es[j] == e;
        SafeCursorsSuffice(vs, limit, "", 0, j);
      }
    } else if Covers(vs, limit) {
      SafeCursorsNecessary(vs, limit, "", 0);
    }
  }
}
