/** Walk order against cursor order. The walk lists a tree in preorder, siblings by name; the
    cursor compares whole paths. This module says exactly for which trees the two agree. */
module CatalogOrder {
  import Paths
  import opened TextOrder
  import opened CatalogWalk

  ghost predicate Ascending(es: seq<Entry>)
  {
    forall i, j :: 0 <= i < j < |es| ==> Less(es[i].path, es[j].path)
  }

  /** The characters up to the first slash. */
  function First(s: string): (first: string)
    ensures '/' !in first && first <= s
    ensures |first| < |s| ==> s[|first|] == '/'
  {
    if s == "" || s[0] == '/' then "" else [s[0]] + First(s[1..])
  }

  lemma {:induction false} FirstOfName(name: string, tail: string)
    requires '/' !in name && (tail != "" ==> tail[0] == '/')
    ensures First(name + tail) == name
  {
    if name == "" {
      assert name + tail == tail;
    } else {
      assert name[0] in name;
      assert (name + tail)[1..] == name[1..] + tail;
      FirstOfName(name[1..], tail);
    }
  }

  /** The name directly below `base` under which a listed path lies. */
  ghost function Branch(base: string, e: Entry): string
  {
    First(if Prefix(base) <= e.path then e.path[|Prefix(base)|..] else "")
  }

  /** The names of the siblings that the walk does not pass over. */
  ghost function Visible(base: string, f: Forest): set<string>
  {
    match f
    case Empty => {}
    case Sibling(name, node, rest) =>
      (if Skipped(JoinRelative(base, name), node) then {} else {name}) + Visible(base, rest)
  }

  lemma {:induction false} VisibleNames(base: string, f: Forest)
    ensures Visible(base, f) <= Names(f)
  {
    match f
    case Empty =>
    case Sibling(_, _, rest) => VisibleNames(base, rest);
  }

  lemma BranchOf(base: string, name: string, e: Entry)
    requires '/' !in name
    requires Paths.AtOrBelow(JoinRelative(base, name), e.path)
    ensures JoinRelative(base, name) <= e.path && Prefix(base) <= e.path && Branch(base, e) == name
  {
    var path := JoinRelative(base, name);
    var tail := e.path[|path|..];
    assert e.path == path + tail == Prefix(base) + (name + tail);
    FirstOfName(name, tail);
  }

  lemma JoinedPrefix(base: string, name: string)
    requires ProperName(name)
    ensures Prefix(JoinRelative(base, name)) == JoinRelative(base, name) + "/"
  {
    var path := JoinRelative(base, name);
    if base != "." {
      assert path[|base|] == '/';
      assert |path| > 1;
    }
  }

  /** Everything listed for one sibling lies at its path or below it. */
  lemma {:induction false} NodeBelow(base: string, name: string, node: Node)
    requires ProperName(name) && (node.Directory? ==> Sorted(node.children))
    ensures forall e :: e in NodeListing(JoinRelative(base, name), name, node) ==>
              Paths.AtOrBelow(JoinRelative(base, name), e.path)
    decreases node, 1
  {
    var path := JoinRelative(base, name);
    if !Skipped(path, node) && node.Directory? {
      ListingBranches(path, node.children);
      JoinedPrefix(base, name);
    }
  }

  lemma {:induction false} ListingBranches(base: string, f: Forest)
    requires Sorted(f)
    ensures forall e :: e in Listing(base, f) ==>
              Prefix(base) <= e.path && e.path != Prefix(base) && Branch(base, e) in Visible(base, f)
    ensures forall m :: m in Visible(base, f) ==>
              exists e :: e in Listing(base, f) && e.path == JoinRelative(base, m)
    decreases f, 0
  {
    match f
    case Empty =>
    case Sibling(name, node, rest) =>
      NodeBelow(base, name, node);
      ListingBranches(base, rest);
      var path := JoinRelative(base, name);
      var here, there := NodeListing(path, name, node), Listing(base, rest);
      forall e | e in Listing(base, f)
        ensures Prefix(base) <= e.path && e.path != Prefix(base) && Branch(base, e) in Visible(base, f)
      {
        if e in here { BranchOf(base, name, e); } else { assert e in there; }
      }
      forall m | m in Visible(base, f)
        ensures exists e :: e in Listing(base, f) && e.path == JoinRelative(base, m)
      {
        if m in Visible(base, rest) {
          var e :| e in there && e.path == JoinRelative(base, m);
          assert e in Listing(base, f);
        } else {
          assert here[0] in Listing(base, f);
        }
      }
  }

  // ---- When is the listing in cursor order? ----

  /** Everything in `a` comes before everything in `b`. */
  ghost predicate AllBefore(a: seq<Entry>, b: seq<Entry>)
  {
    forall x, y :: x in a && y in b ==> Less(x.path, y.path)
  }

  lemma AscendingAppend(a: seq<Entry>, b: seq<Entry>)
    ensures Ascending(a + b) <==> Ascending(a) && Ascending(b) && AllBefore(a, b)
  {
    var ab := a + b;
    if Ascending(ab) {
      forall i, j | 0 <= i < j < |b| ensures Less(b[i].path, b[j].path) {
        assert b[i] == ab[|a| + i] && b[j] == ab[|a| + j];
      }
      forall i, j | 0 <= i < j < |a| ensures Less(a[i].path, a[j].path) {
        assert a[i] == ab[i] && a[j] == ab[j];
      }
      forall x, y | x in a && y in b ensures Less(x.path, y.path) {
        var i :| 0 <= i < |a| && a[i] == x;
        var j :| 0 <= j < |b| && b[j] == y;
        assert ab[i] == x && ab[|a| + j] == y;
      }
    }
    if Ascending(a) && Ascending(b) && AllBefore(a, b) {
      forall i, j | 0 <= i < j < |ab| ensures Less(ab[i].path, ab[j].path) {
        if i < |a| && |a| <= j { assert a[i] in a && b[j - |a|] in b; }
      }
    }
  }

  /** A later sibling `m` that lands between directory `name` and the directory's contents. */
  predicate Splits(name: string, m: string)
  {
    name < m && m[|name|] < '/'
  }

  /** Whether a non-empty directory keeps clear of the later siblings. */
  ghost predicate KeepsClear(base: string, name: string, node: Node, rest: Forest)
  {
    var path := JoinRelative(base, name);
    !Skipped(path, node) && node.Directory? && Visible(path, node.children) != {} ==>
      forall m :: m in Visible(base, rest) ==> !Splits(name, m)
  }

  /** No non-empty directory has a later sibling whose name continues its own with a character
      below '/'. Anyone can read this off the names in the tree. */
  ghost predicate NoSplit(base: string, f: Forest)
    decreases f
  {
    match f
    case Empty => true
    case Sibling(name, node, rest) =>
      var path := JoinRelative(base, name);
      && (!Skipped(path, node) && node.Directory? ==> NoSplit(path, node.children))
      && KeepsClear(base, name, node, rest)
      && NoSplit(base, rest)
  }

  /** How a continuation of `name` compares with a continuation of a later name `m`. */
  lemma ContinuationOrder(name: string, m: string, more: string, tail: string)
    requires '/' !in m && Less(name, m)
    requires more != "" ==> more[0] == '/'
    ensures more == "" ==> Less(name + more, m + tail)
    ensures more != "" ==> (Less(name + more, m + tail) <==> !Splits(name, m))
  {
    if !(name <= m) {
      DecidedEarly(name, m, more, tail);
    } else {
      Trichotomy(name, m);
      assert m[|name|] in m;
      if more == "" {
        assert name + more == name;
        assert m + tail == name + (m[|name|..] + tail);
        PrefixFirst(name, m[|name|..] + tail);
      } else {
        PrefixDecided(name, m, more, tail);
      }
    }
  }

  lemma Cut(prefix: string, s: string)
    requires prefix <= s
    ensures s == prefix + s[|prefix|..]
    ensures s != prefix ==> s[|prefix|..] != "" && s[|prefix|..][0] == s[|prefix|]
  {
  }

  lemma Associate(a: string, b: string, c: string)
    ensures a + b + c == a + (b + c)
  {
  }

  /** A sibling's own path comes before every later branch; a path below it does so unless the
      later name splits them. */
  lemma BranchOrder(base: string, name: string, x: Entry, y: Entry)
    requires Prefix(base) <= y.path && Less(name, Branch(base, y))
    requires Paths.AtOrBelow(JoinRelative(base, name), x.path)
    ensures x.path == JoinRelative(base, name) ==> Less(x.path, y.path)
    ensures x.path != JoinRelative(base, name) ==> (Less(x.path, y.path) <==> !Splits(name, Branch(base, y)))
  {
    var p, path, m := Prefix(base), JoinRelative(base, name), Branch(base, y);
    var more, tail := x.path[|path|..], y.path[|p|..][|m|..];
    Cut(path, x.path);
    Associate(p, name, more);
    Cut(p, y.path);
    Cut(m, y.path[|p|..]);
    CommonPrefix(p, name + more, m + tail);
    ContinuationOrder(name, m, more, tail);
  }

  lemma BelowComesLater(path: string, below: string)
    requires path + "/" <= below
    ensures Less(path, below)
  {
    assert below == path + below[|path|..];
    PrefixFirst(path, below[|path|..]);
  }

  lemma HeadFirst(base: string, name: string, node: Node)
    requires ProperName(name) && node.Directory? && Sorted(node.children)
    requires !Skipped(JoinRelative(base, name), node)
    ensures var path := JoinRelative(base, name);
            Ascending(NodeListing(path, name, node)) <==> Ascending(Listing(path, node.children))
  {
    var path := JoinRelative(base, name);
    var head := [NewEntry(path, name, node)];
    AscendingAppend(head, Listing(path, node.children));
    assert AllBefore(head, Listing(path, node.children)) by {
      HeadBeforeContents(base, name, node);
    }
  }

  lemma HeadBeforeContents(base: string, name: string, node: Node)
    requires ProperName(name) && node.Directory? && Sorted(node.children)
    ensures forall y :: y in Listing(JoinRelative(base, name), node.children) ==> Less(JoinRelative(base, name), y.path)
  {
    var path := JoinRelative(base, name);
    forall y | y in Listing(path, node.children) ensures Less(path, y.path) {
      ListingBranches(path, node.children);
      JoinedPrefix(base, name);
      BelowComesLater(path, y.path);
    }
  }

  lemma SiblingOrder(base: string, name: string, node: Node, rest: Forest, x: Entry, y: Entry)
    requires Sorted(Sibling(name, node, rest))
    requires x in NodeListing(JoinRelative(base, name), name, node) && y in Listing(base, rest)
    ensures x.path == JoinRelative(base, name) ==> Less(x.path, y.path)
    ensures x.path != JoinRelative(base, name) ==> (Less(x.path, y.path) <==> !Splits(name, Branch(base, y)))
    ensures Branch(base, y) in Visible(base, rest)
  {
    NodeBelow(base, name, node);
    ListingBranches(base, rest);
    VisibleNames(base, rest);
    BranchOrder(base, name, x, y);
  }

  lemma KeepsClearThenBefore(base: string, name: string, node: Node, rest: Forest)
    requires Sorted(Sibling(name, node, rest)) && KeepsClear(base, name, node, rest)
    ensures AllBefore(NodeListing(JoinRelative(base, name), name, node), Listing(base, rest))
  {
    var path := JoinRelative(base, name);
    forall x, y | x in NodeListing(path, name, node) && y in Listing(base, rest)
      ensures Less(x.path, y.path)
    {
      SiblingOrder(base, name, node, rest, x, y);
      if x.path != path {
        assert !Skipped(path, node) && node.Directory?;
        ContentsOf(base, name, node);
      }
    }
  }

  lemma BeforeThenKeepsClear(base: string, name: string, node: Node, rest: Forest)
    requires Sorted(Sibling(name, node, rest))
    requires AllBefore(NodeListing(JoinRelative(base, name), name, node), Listing(base, rest))
    ensures KeepsClear(base, name, node, rest)
  {
    var path := JoinRelative(base, name);
    if !Skipped(path, node) && node.Directory? && Visible(path, node.children) != {} {
      ContentsOf(base, name, node);
      var x :| x in NodeListing(path, name, node) && x.path != path;
      forall m | m in Visible(base, rest) ensures !Splits(name, m) {
        var y := EntryOf(base, rest, m);
        SiblingOrder(base, name, node, rest, x, y);
      }
    }
  }

  lemma EntryOf(base: string, f: Forest, m: string) returns (e: Entry)
    requires Sorted(f) && m in Visible(base, f)
    ensures e in Listing(base, f) && e.path == JoinRelative(base, m) && Branch(base, e) == m
  {
    ListingBranches(base, f);
    e :| e in Listing(base, f) && e.path == JoinRelative(base, m);
    VisibleNames(base, f);
    SortedNames(f);
    BranchOf(base, m, e);
  }

  lemma {:induction false} SortedNames(f: Forest)
    requires Sorted(f)
    ensures forall m :: m in Names(f) ==> ProperName(m)
  {
    match f
    case Empty =>
    case Sibling(_, _, rest) => SortedNames(rest);
  }

  /** A directory contributes something below itself exactly when it has a visible child. */
  lemma ContentsOf(base: string, name: string, node: Node)
    requires ProperName(name) && node.Directory? && Sorted(node.children)
    requires !Skipped(JoinRelative(base, name), node)
    ensures var path := JoinRelative(base, name);
            (exists x :: x in NodeListing(path, name, node) && x.path != path) <==> Visible(path, node.children) != {}
  {
    var path := JoinRelative(base, name);
    ListingBranches(path, node.children);
    JoinedPrefix(base, name);
    if Visible(path, node.children) != {} {
      var m :| m in Visible(path, node.children);
      var e := EntryOf(path, node.children, m);
      assert e in NodeListing(path, name, node);
    }
  }

  /** The listing is in cursor order exactly when no directory is split from its contents. */
  lemma {:induction false} AscendingIffNoSplit(base: string, f: Forest)
    requires Sorted(f)
    ensures Ascending(Listing(base, f)) <==> NoSplit(base, f)
    decreases f
  {
    match f
    case Empty =>
    case Sibling(name, node, rest) =>
      var path := JoinRelative(base, name);
      AscendingIffNoSplit(base, rest);
      AscendingAppend(NodeListing(path, name, node), Listing(base, rest));
      if KeepsClear(base, name, node, rest) {
        KeepsClearThenBefore(base, name, node, rest);
      } else if AllBefore(NodeListing(path, name, node), Listing(base, rest)) {
        BeforeThenKeepsClear(base, name, node, rest);
      }
      if !Skipped(path, node) && node.Directory? {
        AscendingIffNoSplit(path, node.children);
        HeadFirst(base, name, node);
      }
  }

  // ---- Sufficient: names without low characters ----

  /** No name in the tree has a character below '/'. */
  ghost predicate PlainNames(f: Forest)
  {
    match f
    case Empty => true
    case Sibling(name, node, rest) =>
      && (forall c :: c in name ==> c >= '/')
      && (node.Directory? ==> PlainNames(node.children))
      && PlainNames(rest)
  }

  lemma {:induction false} PlainNamesCharacters(f: Forest)
    requires PlainNames(f)
    ensures forall m, c :: m in Names(f) && c in m ==> c >= '/'
  {
    match f
    case Empty =>
    case Sibling(_, _, rest) => PlainNamesCharacters(rest);
  }

  lemma {:induction false} PlainNamesNeverSplit(base: string, f: Forest)
    requires PlainNames(f)
    ensures NoSplit(base, f)
    decreases f
  {
    match f
    case Empty =>
    case Sibling(name, node, rest) =>
      if node.Directory? {
        PlainNamesNeverSplit(JoinRelative(base, name), node.children);
      }
      PlainNamesNeverSplit(base, rest);
      PlainNamesCharacters(rest);
      VisibleNames(base, rest);
      forall m | m in Visible(base, rest) ensures !Splits(name, m) {
        if name < m { assert m[|name|] in m; }
      }
  }

  // ---- Listed paths are distinct, whatever the names ----

  ghost predicate Distinct(es: seq<Entry>)
  {
    forall i, j :: 0 <= i < j < |es| ==> es[i].path != es[j].path
  }

  lemma DistinctAppend(a: seq<Entry>, b: seq<Entry>)
    requires Distinct(a) && Distinct(b)
    requires forall x, y :: x in a && y in b ==> x.path != y.path
    ensures Distinct(a + b)
  {
    var ab := a + b;
    forall i, j | 0 <= i < j < |ab| ensures ab[i].path != ab[j].path {
      if i < |a| && |a| <= j { assert a[i] in a && b[j - |a|] in b; }
    }
  }

  lemma {:induction false} ListingDistinct(base: string, f: Forest)
    requires Sorted(f)
    ensures Distinct(Listing(base, f))
    decreases f
  {
    match f
    case Empty =>
    case Sibling(name, node, rest) =>
      var path := JoinRelative(base, name);
      ListingDistinct(base, rest);
      forall x, y | x in NodeListing(path, name, node) && y in Listing(base, rest)
        ensures x.path != y.path
      {
        NodeBelow(base, name, node);
        BranchOf(base, name, x);
        ListingBranches(base, rest);
        VisibleNames(base, rest);
        Trichotomy(name, name);
      }
      if !Skipped(path, node) && node.Directory? {
        ListingDistinct(path, node.children);
        HeadBeforeContents(base, name, node);
        Trichotomy(path, path);
        DistinctAppend([NewEntry(path, name, node)], Listing(path, node.children));
      }
      DistinctAppend(NodeListing(path, name, node), Listing(base, rest));
  }

  /** Every listed path is past the empty cursor. */
  lemma ListingAfterEmptyCursor(f: Forest)
    requires Sorted(f)
    ensures After("", Listing(".", f)) == Listing(".", f)
  {
    ListingBranches(".", f);
    AfterAll("", Listing(".", f));
  }
}
