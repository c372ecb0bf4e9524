/** Which mount points are registered automatically: `selectConfiguredMounts`. */
module MountSelection {
  import opened Sorting
  import opened TextOrder
  import Paths

  datatype Entry = Entry(available: bool, readOnly: bool, point: string)

  // ---- Depth ----

  /** `strings.Trim(s, "/")`. */
  function TrimSlashes(s: string): (t: string)
    ensures t != "" ==> t[0] != '/' && t[|t| - 1] != '/'
  {
    if s == "" then ""
    else if s[0] == '/' then TrimSlashes(s[1..])
    else if s[|s| - 1] == '/' then TrimSlashes(s[..|s| - 1])
    else s
  }

  function PathDepth(path: string): nat
  {
    var cleaned := Paths.Clean(path);
    if cleaned == "/" then 0 else |Paths.Split(TrimSlashes(cleaned))|
  }

  lemma {:induction false} JoinEnd(parts: seq<string>)
    requires parts != [] && forall part :: part in parts ==> part != "" && '/' !in part
    ensures Paths.Join(parts) != "" && Paths.Join(parts)[|Paths.Join(parts)| - 1] != '/'
  {
    if |parts| == 1 {
      assert parts[0] in parts;
    } else {
      assert forall part :: part in parts[1..] ==> part in parts;
      JoinEnd(parts[1..]);
    }
  }

  /** A cleaned path has slashes at neither end, but for the one that makes it absolute. */
  lemma CleanHasNoSlashes(p: string)
    requires Paths.Clean(p) == p && p != "/"
    ensures TrimSlashes(p) == if "/" <= p then p[1..] else p
  {
    var rooted := p != "" && p[0] == '/';
    var parts := Paths.Split(p);
    var kept := Paths.Reduce(parts, rooted, []);
    Paths.SplitParts(p);
    Paths.ReduceCanonical(parts, rooted, []);
    if kept == [] {
      assert p == ".";
    } else {
      Paths.JoinNonEmpty(kept);
      JoinEnd(kept);
      var joined := Paths.Join(kept);
      assert TrimSlashes(joined) == joined;
      if rooted {
        assert p == "/" + joined && p[1..] == joined;
      }
    }
  }

  lemma CutPrefix(a: string, b: string, k: nat)
    requires a + "/" <= b && k <= |a|
    ensures b[k..] == a[k..] + "/" + b[|a| + 1..]
  {
    assert b == a + "/" + b[|a| + 1..];
  }

  lemma SlashFirst(a: string, b: string)
    requires a != "" && a + "/" <= b
    ensures |b| > 1 && b[0] == a[0]
  {
  }

  lemma TrimmedBeneath(a: string, b: string)
    requires Paths.Clean(a) == a && Paths.Clean(b) == b && a != "/" && a != "" && a + "/" <= b
    ensures TrimSlashes(b) == TrimSlashes(a) + "/" + b[|a| + 1..]
  {
    SlashFirst(a, b);
    CleanHasNoSlashes(a);
    CleanHasNoSlashes(b);
    CutPrefix(a, b, if a[0] == '/' then 1 else 0);
  }

  /** What lies strictly beneath a path is deeper. */
  lemma BeneathIsDeeper(a: string, b: string)
    requires Paths.Clean(a) == a && Paths.Clean(b) == b && a != "/" && Paths.AtOrBelow(a, b) && a != b
    ensures PathDepth(a) < PathDepth(b)
  {
    assert Paths.Clean("") == ".";
    TrimmedBeneath(a, b);
    Paths.SplitAppend(TrimSlashes(a), b[|a| + 1..]);
    assert |a + "/"| > 1;
  }

  /** The depth of a cleaned path is the number of its components. */
  function Count(p: string): nat
  {
    if p == "/" then 0 else |Paths.Split(if "/" <= p then p[1..] else p)|
  }

  lemma DepthIsCount(p: string)
    requires Paths.Clean(p) == p
    ensures PathDepth(p) == Count(p)
  {
    if p != "/" { CleanHasNoSlashes(p); }
  }

  predicate Shallower(a: string, b: string)
  {
    PathDepth(a) < PathDepth(b) || (PathDepth(a) == PathDepth(b) && Less(a, b))
  }

  /** Depth first, then path. */
  function ByDepth(): Order<string>
  {
    (a: string, b: string) => Shallower(a, b)
  }

  lemma DepthOrders(points: set<string>)
    ensures Orders(ByDepth(), points)
  {
    forall a, b ensures !Shallower(a, a) && (a != b ==> Shallower(a, b) || Shallower(b, a))
    {
      Trichotomy(a, a);
      Trichotomy(a, b);
    }
    forall a, b, c ensures Transits(ByDepth(), a, b, c)
    {
      if PathDepth(a) == PathDepth(b) == PathDepth(c) && Less(a, b) && Less(b, c) {
        Transitive(a, b, c);
      }
    }
  }

  // ---- What is selected ----

  function Point(e: Entry): string
  {
    Paths.Clean(Paths.TrimSpace(e.point))
  }

  /** Available, a proper path, and at or beneath one of the two configured roots. */
  predicate Eligible(e: Entry, managed: string, external: string)
  {
    && e.available && Point(e) != "." && Point(e) != "/"
    && (Paths.AtOrBelow(managed, Point(e)) || Paths.AtOrBelow(external, Point(e)))
  }

  function Points(entries: seq<Entry>, managed: string, external: string): set<string>
  {
    set e | e in entries && Eligible(e, managed, external) :: Point(e)
  }

  /** The external root itself gives way to mounts inside it. */
  function Remaining(points: set<string>, external: string): set<string>
  {
    if external in points && exists p :: p in points && p != external && external + "/" <= p
    then points - {external} else points
  }

  predicate Minimal(points: set<string>, p: string)
  {
    p in points && forall q :: q in points && Paths.AtOrBelow(q, p) ==> q == p
  }

  function MinimalPoints(points: set<string>): set<string>
  {
    set p | p in points && Minimal(points, p)
  }

  lemma AtOrBelowTransitive(a: string, b: string, c: string)
    requires Paths.AtOrBelow(a, b) && Paths.AtOrBelow(b, c)
    ensures Paths.AtOrBelow(a, c)
  {
    if a + "/" <= b && b + "/" <= c {
      assert a + "/" == b[..|a| + 1] == c[..|a| + 1];
    }
  }

  /** The entry that is kept for a point: the last one listed. */
  ghost predicate LastAt(entries: seq<Entry>, managed: string, external: string, point: string, kept: Entry)
  {
    exists k :: 0 <= k < |entries| && IsLast(entries, managed, external, point, kept, k)
  }

  ghost predicate IsLast(entries: seq<Entry>, managed: string, external: string, point: string, kept: Entry, k: nat)
    requires k < |entries|
  {
    && Eligible(entries[k], managed, external) && Point(entries[k]) == point && kept == entries[k].(point := point)
    && forall j :: k < j < |entries| && Eligible(entries[j], managed, external) ==> Point(entries[j]) != point
  }

  lemma OneMorePoint(entries: seq<Entry>, e: Entry, managed: string, external: string)
    ensures Points(entries + [e], managed, external) ==
            Points(entries, managed, external) + if Eligible(e, managed, external) then {Point(e)} else {}
  {
    var all := entries + [e];
    assert forall x :: x in all <==> x in entries || x == e;
  }

  lemma StillLast(entries: seq<Entry>, e: Entry, managed: string, external: string, point: string, kept: Entry)
    requires LastAt(entries, managed, external, point, kept)
    requires Eligible(e, managed, external) ==> Point(e) != point
    ensures LastAt(entries + [e], managed, external, point, kept)
  {
    var all := entries + [e];
    var k :| 0 <= k < |entries| && IsLast(entries, managed, external, point, kept, k);
    assert all[k] == entries[k];
    forall j | k < j < |all| && Eligible(all[j], managed, external) ensures Point(all[j]) != point
    {
      assert j < |entries| ==> all[j] == entries[j];
    }
    assert IsLast(all, managed, external, point, kept, k);
  }

  lemma NewLast(entries: seq<Entry>, e: Entry, managed: string, external: string)
    requires Eligible(e, managed, external)
    ensures LastAt(entries + [e], managed, external, Point(e), e.(point := Point(e)))
  {
    assert IsLast(entries + [e], managed, external, Point(e), e.(point := Point(e)), |entries|);
  }

  method CollectPoints(entries: seq<Entry>, managed: string, external: string) returns (byPath: map<string, Entry>)
    ensures byPath.Keys == Points(entries, managed, external)
    ensures forall p :: p in byPath ==> byPath[p].point == p
    ensures forall p :: p in byPath ==> LastAt(entries, managed, external, p, byPath[p])
  {
    byPath := map[];
    for i := 0 to |entries|
      invariant byPath.Keys == Points(entries[..i], managed, external)
      invariant forall p :: p in byPath ==> byPath[p].point == p
      invariant forall p :: p in byPath ==> LastAt(entries[..i], managed, external, p, byPath[p])
    {
      ghost var before := entries[..i];
      var entry := entries[i];
      assert entries[..i + 1] == before + [entry];
      OneMorePoint(before, entry, managed, external);
      ghost var kept := byPath;
      forall p | p in byPath && (Eligible(entry, managed, external) ==> Point(entry) != p)
        ensures LastAt(before + [entry], managed, external, p, kept[p])
      {
        StillLast(before, entry, managed, external, p, kept[p]);
      }
      if Eligible(entry, managed, external) {
        NewLast(before, entry, managed, external);
        byPath := byPath[Point(entry) := entry.(point := Point(entry))];
      }
    }
    assert entries[..|entries|] == entries;
  }

  /** Some entry gives this point: available, not the root, and at or beneath one of the two
      configured roots, component by component. */
  ghost predicate Wanted(entries: seq<Entry>, managed: string, external: string, p: string)
  {
    && p != "." && p != "/"
    && (Paths.Split(managed) <= Paths.Split(p) || Paths.Split(external) <= Paths.Split(p))
    && exists e :: e in entries && e.available && Paths.Clean(Paths.TrimSpace(e.point)) == p
  }

  /** Nothing that is wanted lies above it, other than the external root; and the external root is
      taken only if nothing that is wanted lies within it. */
  ghost predicate Chosen(entries: seq<Entry>, managed: string, external: string, p: string)
  {
    && Wanted(entries, managed, external, p)
    && (forall q :: Wanted(entries, managed, external, q) && Paths.Split(q) <= Paths.Split(p) ==> q == p || q == external)
    && (p == external ==> forall q :: Wanted(entries, managed, external, q) && Paths.Split(p) <= Paths.Split(q) ==> q == p)
  }

  lemma WantedArePoints(entries: seq<Entry>, managed: string, external: string, p: string)
    ensures Wanted(entries, managed, external, p) <==> p in Points(entries, managed, external)
  {
    Paths.AtOrBelowIsComponentPrefix(managed, p);
    Paths.AtOrBelowIsComponentPrefix(external, p);
  }

  lemma StaysIff(points: set<string>, external: string, p: string)
    requires p in points
    ensures p in Remaining(points, external) <==>
              (p == external ==> forall q :: q in points && Paths.AtOrBelow(external, q) ==> q == p)
  {
  }

  lemma TopmostIff(points: set<string>, external: string, p: string)
    requires p in Remaining(points, external)
    ensures Minimal(Remaining(points, external), p) <==>
              forall q :: q in points && Paths.AtOrBelow(q, p) ==> q == p || q == external
  {
  }

  /** The external root gives way exactly to what lies within it; then the topmost points remain. */
  lemma ChosenAreMinimal(entries: seq<Entry>, managed: string, external: string, p: string)
    ensures Chosen(entries, managed, external, p) <==>
            p in MinimalPoints(Remaining(Points(entries, managed, external), external))
  {
    var points := Points(entries, managed, external);
    WantedArePoints(entries, managed, external, p);
    if p in points {
      StaysIff(points, external, p);
      if p in Remaining(points, external) { TopmostIff(points, external, p); }
      forall q ensures Wanted(entries, managed, external, q) <==> q in points
        ensures Paths.AtOrBelow(q, p) <==> Paths.Split(q) <= Paths.Split(p)
        ensures Paths.AtOrBelow(p, q) <==> Paths.Split(p) <= Paths.Split(q)
      {
        WantedArePoints(entries, managed, external, q);
        Paths.AtOrBelowIsComponentPrefix(q, p);
        Paths.AtOrBelowIsComponentPrefix(p, q);
      }
    }
  }

  // ---- The selection loop ----

  ghost predicate AllClean(points: set<string>)
  {
    forall p :: p in points ==> Paths.Clean(p) == p && p != "/"
  }

  lemma PointsAreClean(entries: seq<Entry>, managed: string, external: string)
    ensures AllClean(Points(entries, managed, external))
  {
    forall e | e in entries && Eligible(e, managed, external)
      ensures Paths.Clean(Point(e)) == Point(e)
    {
      Paths.CleanIdempotent(Paths.TrimSpace(e.point));
    }
  }

  /** Every point so far lies at or beneath a chosen one. */
  ghost predicate Covered(chosen: seq<string>, p: string)
  {
    exists s :: s in chosen && Paths.AtOrBelow(s, p)
  }

  ghost predicate AllCovered(chosen: seq<string>, points: seq<string>)
  {
    forall i :: 0 <= i < |points| ==> Covered(chosen, points[i])
  }

  /** The state of the loop after the first `i` candidates. */
  ghost predicate ChosenAmong(points: set<string>, candidates: seq<string>, i: nat, chosen: seq<string>)
    requires i <= |candidates|
  {
    && (forall p :: p in chosen <==> p in candidates[..i] && Minimal(points, p))
    && AllCovered(chosen, candidates[..i])
    && Ascending(ByDepth(), chosen)
  }

  /** Whatever lies above a candidate came before it. */
  lemma AboveCameBefore(points: set<string>, candidates: seq<string>, i: nat, q: string)
    requires AllClean(points) && IsSorting(ByDepth(), points, candidates) && i < |candidates|
    requires q in points && Paths.AtOrBelow(q, candidates[i]) && q != candidates[i]
    ensures q in candidates[..i]
  {
    assert candidates[i] in points && q in candidates;
    BeneathIsDeeper(q, candidates[i]);
    var j :| 0 <= j < |candidates| && candidates[j] == q;
    DepthOrders(points);
    BeforeMeansEarlier(ByDepth(), points, candidates, j, i);
    assert candidates[..i][j] == q;
  }

  lemma CoveredIsNotMinimal(points: set<string>, candidates: seq<string>, i: nat, chosen: seq<string>)
    requires AllClean(points) && IsSorting(ByDepth(), points, candidates) && i < |candidates|
    requires ChosenAmong(points, candidates, i, chosen) && Covered(chosen, candidates[i])
    ensures !Minimal(points, candidates[i])
  {
    var s :| s in chosen && Paths.AtOrBelow(s, candidates[i]);
    assert s in candidates[..i];
    var j :| 0 <= j < i && candidates[j] == s;
    DepthOrders(points);
    SortedOnce(ByDepth(), points, candidates, j, i);
    assert s in points;
  }

  lemma NotMinimalIsCovered(points: set<string>, candidates: seq<string>, i: nat, chosen: seq<string>)
    requires AllClean(points) && IsSorting(ByDepth(), points, candidates) && i < |candidates|
    requires ChosenAmong(points, candidates, i, chosen) && !Minimal(points, candidates[i])
    ensures Covered(chosen, candidates[i])
  {
    var p := candidates[i];
    assert p in points;
    var q :| q in points && Paths.AtOrBelow(q, p) && q != p;
    AboveCameBefore(points, candidates, i, q);
    var j :| 0 <= j < i && candidates[..i][j] == q;
    assert Covered(chosen, candidates[..i][j]);
    var s :| s in chosen && Paths.AtOrBelow(s, q);
    AtOrBelowTransitive(s, q, p);
  }

  /** A candidate beneath none of the chosen is minimal, and one beneath a chosen is not. */
  lemma OverlapMeansNotMinimal(points: set<string>, candidates: seq<string>, i: nat, chosen: seq<string>)
    requires AllClean(points) && IsSorting(ByDepth(), points, candidates) && i < |candidates|
    requires ChosenAmong(points, candidates, i, chosen)
    ensures Covered(chosen, candidates[i]) <==> !Minimal(points, candidates[i])
  {
    if Covered(chosen, candidates[i]) {
      CoveredIsNotMinimal(points, candidates, i, chosen);
    }
    if !Minimal(points, candidates[i]) {
      NotMinimalIsCovered(points, candidates, i, chosen);
    }
  }

  lemma CoveredMore(chosen: seq<string>, p: string, q: string)
    requires Covered(chosen, q) || p == q
    ensures Covered(chosen + [p], q)
  {
    if Covered(chosen, q) {
      var s :| s in chosen && Paths.AtOrBelow(s, q);
      assert s in chosen + [p];
    } else {
      assert p in chosen + [p] && Paths.AtOrBelow(p, q);
    }
  }

  lemma StillCovered(chosen: seq<string>, points: seq<string>, p: string)
    requires AllCovered(chosen, points)
    ensures AllCovered(chosen + [p], points + [p])
  {
    var all := points + [p];
    forall i | 0 <= i < |all| ensures Covered(chosen + [p], all[i])
    {
      assert i < |points| ==> Covered(chosen, points[i]);
      CoveredMore(chosen, p, all[i]);
    }
  }

  lemma ChooseNext(points: set<string>, candidates: seq<string>, i: nat, chosen: seq<string>)
    requires AllClean(points) && IsSorting(ByDepth(), points, candidates) && i < |candidates|
    requires ChosenAmong(points, candidates, i, chosen) && !Covered(chosen, candidates[i])
    ensures ChosenAmong(points, candidates, i + 1, chosen + [candidates[i]])
  {
    var p := candidates[i];
    OverlapMeansNotMinimal(points, candidates, i, chosen);
    OneMore(candidates, i);
    StillCovered(chosen, candidates[..i], p);
    forall q | q in chosen ensures ByDepth()(q, p)
    {
      assert q in candidates[..i];
      var n :| 0 <= n < i && candidates[n] == q;
    }
    AppendKeepsAscending(ByDepth(), chosen, p);
  }

  lemma OneMoreCovered(chosen: seq<string>, points: seq<string>, p: string)
    requires AllCovered(chosen, points) && Covered(chosen, p)
    ensures AllCovered(chosen, points + [p])
  {
  }

  lemma SameMembers(points: set<string>, before: seq<string>, p: string, chosen: seq<string>)
    requires forall q :: q in chosen <==> q in before && Minimal(points, q)
    requires !Minimal(points, p)
    ensures forall q :: q in chosen <==> q in before + [p] && Minimal(points, q)
  {
  }

  lemma PassOver(points: set<string>, candidates: seq<string>, i: nat, chosen: seq<string>)
    requires AllClean(points) && IsSorting(ByDepth(), points, candidates) && i < |candidates|
    requires ChosenAmong(points, candidates, i, chosen) && Covered(chosen, candidates[i])
    ensures ChosenAmong(points, candidates, i + 1, chosen)
  {
    var p := candidates[i];
    OverlapMeansNotMinimal(points, candidates, i, chosen);
    OneMore(candidates, i);
    OneMoreCovered(chosen, candidates[..i], p);
    SameMembers(points, candidates[..i], p, chosen);
  }

  /** The inner loop: whether the candidate is at or beneath a selected point. */
  method Overlaps(selected: seq<Entry>, candidate: string, ghost chosen: seq<string>) returns (overlaps: bool)
    requires |selected| == |chosen| && forall i :: 0 <= i < |chosen| ==> selected[i].point == chosen[i]
    ensures overlaps <==> Covered(chosen, candidate)
  {
    for k := 0 to |selected|
      invariant forall j :: 0 <= j < k ==> !Paths.AtOrBelow(chosen[j], candidate)
    {
      if Paths.AtOrBelow(selected[k].point, candidate) {
        assert chosen[k] in chosen;
        return true;
      }
    }
    return false;
  }

  function PointsOf(selected: seq<Entry>): (points: seq<string>)
  {
    seq(|selected|, i requires 0 <= i < |selected| => selected[i].point)
  }

  lemma PointsOfMore(selected: seq<Entry>, e: Entry)
    ensures PointsOf(selected + [e]) == PointsOf(selected) + [e.point]
  {
  }

  lemma NothingChosen(points: set<string>, candidates: seq<string>)
    ensures ChosenAmong(points, candidates, 0, [])
  {
    assert candidates[..0] == [];
  }

  /** The second half of `selectConfiguredMounts`: sort the candidates, keep those that no selected
      one covers. */
  method SelectMinimal(byPath: map<string, Entry>) returns (selected: seq<Entry>)
    requires AllClean(byPath.Keys) && forall p :: p in byPath ==> byPath[p].point == p
    ensures IsSorting(ByDepth(), MinimalPoints(byPath.Keys), PointsOf(selected))
    ensures forall e :: e in selected ==> e.point in byPath && e == byPath[e.point]
  {
    DepthOrders(byPath.Keys);
    var candidates := Sort(ByDepth(), byPath.Keys);
    selected := [];
    assert PointsOf(selected) == [];
    NothingChosen(byPath.Keys, candidates);
    for i := 0 to |candidates|
      invariant ChosenAmong(byPath.Keys, candidates, i, PointsOf(selected))
      invariant forall e :: e in selected ==> e.point in byPath && e == byPath[e.point]
    {
      var candidate := candidates[i];
      assert candidate in byPath.Keys;
      ghost var chosen := PointsOf(selected);
      var overlaps := Overlaps(selected, candidate, chosen);
      if overlaps {
        PassOver(byPath.Keys, candidates, i, chosen);
      } else {
        ChooseNext(byPath.Keys, candidates, i, chosen);
        PointsOfMore(selected, byPath[candidate]);
        selected := selected + [byPath[candidate]];
      }
    }
    AllChosen(byPath.Keys, candidates, PointsOf(selected));
  }

  lemma AllChosen(points: set<string>, candidates: seq<string>, chosen: seq<string>)
    requires IsSorting(ByDepth(), points, candidates) && ChosenAmong(points, candidates, |candidates|, chosen)
    ensures IsSorting(ByDepth(), MinimalPoints(points), chosen)
  {
    assert candidates[..|candidates|] == candidates;
  }

  /** Fewer components first, then by text. */
  ghost predicate InDepthOrder(points: seq<string>)
  {
    forall i, j :: 0 <= i < j < |points| ==>
      Count(points[i]) < Count(points[j]) || (Count(points[i]) == Count(points[j]) && Less(points[i], points[j]))
  }

  lemma SortedByCount(points: set<string>, sorted: seq<string>)
    requires AllClean(points) && IsSorting(ByDepth(), points, sorted)
    ensures InDepthOrder(sorted)
  {
    forall i, j | 0 <= i < j < |sorted|
      ensures Count(sorted[i]) < Count(sorted[j]) || (Count(sorted[i]) == Count(sorted[j]) && Less(sorted[i], sorted[j]))
    {
      assert sorted[i] in points && sorted[j] in points;
      DepthIsCount(sorted[i]);
      DepthIsCount(sorted[j]);
    }
  }

  /** `selectConfiguredMounts`: exactly the minimal points, in depth-then-path order. Since there
      is only one such order, the result does not depend on how the map was iterated. */
  method SelectConfiguredMounts(entries: seq<Entry>, managedRoot: string, externalRoot: string)
    returns (selected: seq<Entry>)
    ensures var managed, external := Paths.Clean(Paths.TrimSpace(managedRoot)), Paths.Clean(Paths.TrimSpace(externalRoot));
            var points := Remaining(Points(entries, managed, external), external);
            && IsSorting(ByDepth(), MinimalPoints(points), PointsOf(selected))
            && (forall p :: p in PointsOf(selected) <==> Chosen(entries, managed, external, p))
            && (forall e :: e in selected ==> LastAt(entries, managed, external, e.point, e))
            && InDepthOrder(PointsOf(selected))
  {
    var managed, external := Paths.Clean(Paths.TrimSpace(managedRoot)), Paths.Clean(Paths.TrimSpace(externalRoot));
    var byPath := CollectPoints(entries, managed, external);
    PointsAreClean(entries, managed, external);
    if external in byPath && exists p :: p in byPath && p != external && external + "/" <= p {
      byPath := byPath - {external};
    }
    assert byPath.Keys == Remaining(Points(entries, managed, external), external);
    selected := SelectMinimal(byPath);
    forall p ensures p in PointsOf(selected) <==> Chosen(entries, managed, external, p)
    {
      ChosenAreMinimal(entries, managed, external, p);
    }
    SortedByCount(MinimalPoints(byPath.Keys), PointsOf(selected));
  }

  /** Two runs over the same entries select the same points in the same order. */
  lemma SelectionIsDetermined(points: set<string>, first: seq<string>, second: seq<string>)
    requires IsSorting(ByDepth(), MinimalPoints(points), first) && IsSorting(ByDepth(), MinimalPoints(points), second)
    ensures first == second
  {
    DepthOrders(MinimalPoints(points));
    SortingUnique(ByDepth(), MinimalPoints(points), first, second);
  }

  /** What is selected covers everything eligible, and no selected point lies beneath another. */
  lemma {:induction false} MinimalPointsCover(points: set<string>, p: string) returns (above: string)
    requires AllClean(points) && p in points
    ensures above in MinimalPoints(points) && Paths.AtOrBelow(above, p)
    decreases PathDepth(p)
  {
    if Minimal(points, p) {
      above := p;
    } else {
      var q :| q in points && Paths.AtOrBelow(q, p) && q != p;
      BeneathIsDeeper(q, p);
      above := MinimalPointsCover(points, q);
      AtOrBelowTransitive(above, q, p);
    }
  }
}
