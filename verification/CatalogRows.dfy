/** What an index row says of the tree: looking a path up component by component finds the very
    node that the row describes, and every node outside the reserved directory has a row. */
module CatalogRows {
  import Paths
  import opened TextOrder
  import opened CatalogWalk
  import opened CatalogOrder
  import opened ComponentOrder

  datatype Option<+T> = None | Some(value: T)

  /** The node at a path given by its components. */
  function Find(f: Forest, parts: seq<string>): Option<Node>
    decreases f
  {
    match f
    case Empty => None
    case Sibling(name, node, rest) =>
      if parts == [] then None
      else if parts[0] == name then FindBelow(node, parts[1..])
      else Find(rest, parts)
  }

  function FindBelow(node: Node, parts: seq<string>): Option<Node>
    decreases node
  {
    if parts == [] then Some(node)
    else if node.Directory? then Find(node.children, parts)
    else None
  }

  /** The row is that of a file or directory of this name, with its size and time; directories count
      no bytes. */
  predicate Describes(row: Row, node: Node, name: string)
  {
    && !node.Other? && row.name == name && row.modified == node.info.modified
    && (row.kind == FileKind <==> node.File?) && (row.kind == DirectoryKind <==> node.Directory?)
    && row.size == if node.File? then node.info.size else 0
  }

  ghost predicate Described(f: Forest, parts: seq<string>, row: Row)
  {
    parts != [] && Find(f, parts).Some? && Describes(row, Find(f, parts).value, parts[|parts| - 1])
  }

  ghost predicate DescribedBelow(node: Node, name: string, parts: seq<string>, row: Row)
  {
    && parts != [] && parts[0] == name
    && FindBelow(node, parts[1..]).Some? && Describes(row, FindBelow(node, parts[1..]).value, parts[|parts| - 1])
  }

  // ---- Every row describes its node ----

  lemma Inside(node: Node, name: string, inner: seq<string>, row: Row)
    requires node.Directory? && Described(node.children, inner, row)
    ensures DescribedBelow(node, name, [name] + inner, row)
  {
    assert ([name] + inner)[1..] == inner;
  }

  lemma HeadRow(base: string, name: string, node: Node)
    requires ProperName(name) && !node.Other?
    ensures var head := NewEntry(JoinRelative(base, name), name, node); DescribedBelow(node, name, Beyond(base, head), head.row)
  {
    BeyondItself(base, name, NewEntry(JoinRelative(base, name), name, node));
    assert [name][1..] == [];
  }

  lemma {:induction false} NodeRows(base: string, name: string, node: Node)
    requires ProperName(name) && (node.Directory? ==> Sorted(node.children))
    ensures forall e :: e in NodeListing(JoinRelative(base, name), name, node) ==>
              DescribedBelow(node, name, Beyond(base, e), e.row)
    decreases node, 1
  {
    var path := JoinRelative(base, name);
    if !Skipped(path, node) {
      HeadRow(base, name, node);
      if node.Directory? {
        RowsDescribe(path, node.children);
        ListingBranches(path, node.children);
        forall e | e in Listing(path, node.children) ensures DescribedBelow(node, name, Beyond(base, e), e.row)
        {
          BeyondDirectory(base, name, e);
          Inside(node, name, Beyond(path, e), e.row);
        }
      }
    }
  }

  lemma {:induction false} RowsDescribe(base: string, f: Forest)
    requires Sorted(f)
    ensures forall e :: e in Listing(base, f) ==> Described(f, Beyond(base, e), e.row)
    decreases f, 0
  {
    match f
    case Empty =>
    case Sibling(name, node, rest) =>
      NodeRows(base, name, node);
      RowsDescribe(base, rest);
      forall e | e in Listing(base, rest) ensures Described(f, Beyond(base, e), e.row)
      {
        OthersStart(base, rest, e);
        Trichotomy(name, Beyond(base, e)[0]);
      }
      forall e | e in NodeListing(JoinRelative(base, name), name, node) ensures Described(f, Beyond(base, e), e.row)
      {
        assert DescribedBelow(node, name, Beyond(base, e), e.row);
      }
  }

  // ---- Every node has a row ----

  /** Where the walk may be: the root, or an accepted path. */
  ghost predicate Base(base: string)
  {
    base == "." || (Paths.Cleaned(base) && base != "")
  }

  /** A name is passed over only if it is the reserved one in the root. */
  lemma AcceptedIff(base: string, name: string)
    requires Base(base) && ProperName(name)
    ensures Paths.CleanRelativePath(JoinRelative(base, name)).Ok? <==> base != "." || name != Paths.RESERVED_NAMESPACE
    ensures Paths.CleanRelativePath(JoinRelative(base, name)).Ok? ==> Base(JoinRelative(base, name)) && JoinRelative(base, name) != "."
  {
    var path := JoinRelative(base, name);
    Paths.SplitSingle(name);
    Paths.SplitSingle(".");
    if base == "." {
      assert path == name;
      Paths.FirstComponent(Paths.RESERVED_NAMESPACE, name);
      if name != Paths.RESERVED_NAMESPACE {
        Paths.CleanedIsFixed(name);
      } else {
        ReservedIsRefused();
      }
    } else {
      Paths.SplitAppend(base, name);
      assert path == base + "/" + name && '/' in path;
      Paths.CleanedIsFixed(path);
    }
  }

  lemma ReservedIsRefused()
    ensures Paths.CleanRelativePath(Paths.RESERVED_NAMESPACE).Err?
  {
    var r := Paths.RESERVED_NAMESPACE;
    assert !Paths.IsSpace(r[0]);
    Paths.SplitSingle(r);
    Paths.CanonicalFixed([r]);
    assert Paths.Join([r]) == r;
  }

  lemma JoinedBelow(base: string, name: string, parts: seq<string>)
    requires ProperName(name) && parts != []
    ensures Prefix(JoinRelative(base, name)) + Paths.Join(parts) == Prefix(base) + Paths.Join([name] + parts)
  {
    JoinedPrefix(base, name);
    assert ([name] + parts)[1..] == parts;
    assert Paths.Join([name] + parts) == name + "/" + Paths.Join(parts);
  }

  lemma {:induction false} EveryNodeListed(base: string, f: Forest, parts: seq<string>) returns (e: Entry)
    requires Sorted(f) && Base(base) && Find(f, parts).Some? && !Find(f, parts).value.Other?
    requires base == "." ==> parts[0] != Paths.RESERVED_NAMESPACE
    ensures e in Listing(base, f) && e.path == Prefix(base) + Paths.Join(parts)
    decreases f
  {
    match f
    case Sibling(name, node, rest) =>
      if parts[0] == name {
        var path := JoinRelative(base, name);
        AcceptedIff(base, name);
        if |parts| == 1 {
          e := NewEntry(path, name, node);
        } else {
          e := EveryNodeListed(path, node.children, parts[1..]);
          JoinedBelow(base, name, parts[1..]);
          assert [name] + parts[1..] == parts;
        }
        assert e in NodeListing(path, name, node);
      } else {
        e := EveryNodeListed(base, rest, parts);
      }
  }

  lemma {:induction false} NothingReservedVisible(f: Forest)
    requires Sorted(f)
    ensures Paths.RESERVED_NAMESPACE !in Visible(".", f)
  {
    match f
    case Empty =>
    case Sibling(name, node, rest) =>
      AcceptedIff(".", name);
      assert JoinRelative(".", name) == name;
      NothingReservedVisible(rest);
  }

  lemma {:induction false} FoundNames(f: Forest, parts: seq<string>)
    requires Sorted(f) && Find(f, parts).Some?
    ensures parts != [] && forall part :: part in parts ==> ProperName(part)
    decreases f
  {
    match f
    case Sibling(name, node, rest) =>
      if parts[0] == name {
        if |parts| > 1 {
          FoundNames(node.children, parts[1..]);
        }
        assert forall part :: part in parts ==> part == parts[0] || part in parts[1..];
      } else {
        FoundNames(rest, parts);
      }
  }

  ghost predicate Lists(f: Forest, parts: seq<string>)
  {
    exists e :: e in Listing(".", f) && Paths.Split(e.path) == parts
  }

  /** A sorted tree's listing is the tree: a path is listed exactly when there is a file or directory
      at it, outside the reserved directory, and its row describes just that. */
  lemma ListingIsTheTree(f: Forest)
    requires Sorted(f)
    ensures forall e :: e in Listing(".", f) ==> Described(f, Paths.Split(e.path), e.row)
    ensures forall parts :: Lists(f, parts) <==>
              Find(f, parts).Some? && !Find(f, parts).value.Other? && parts[0] != Paths.RESERVED_NAMESPACE
  {
    RowsDescribe(".", f);
    forall e | e in Listing(".", f)
      ensures Described(f, Paths.Split(e.path), e.row) && Paths.Split(e.path)[0] != Paths.RESERVED_NAMESPACE
    {
      assert e.path[0..] == e.path;
      assert Beyond(".", e) == Paths.Split(e.path);
      ListingBranches(".", f);
      NothingReservedVisible(f);
      FirstComponent(e.path);
      assert Branch(".", e) == First(e.path);
    }
    forall parts | Find(f, parts).Some?
      ensures !Find(f, parts).value.Other? && parts[0] != Paths.RESERVED_NAMESPACE ==> Lists(f, parts)
    {
      FoundNames(f, parts);
      if !Find(f, parts).value.Other? && parts[0] != Paths.RESERVED_NAMESPACE {
        var e := EveryNodeListed(".", f, parts);
        assert e.path == Paths.Join(parts);
        Paths.SplitJoin(parts);
      }
    }
  }
}
