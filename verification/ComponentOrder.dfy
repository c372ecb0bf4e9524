/** The walk has an order of its own on every tree: by components, a directory before what it
    holds. Comparing paths that way instead of as strings would need no condition on the names. */
module ComponentOrder {
  import Paths
  import opened TextOrder
  import opened CatalogWalk
  import opened CatalogOrder

  /** Component by component, a proper prefix first. */
  predicate LessParts(a: seq<string>, b: seq<string>)
  {
    if b == [] then false
    else if a == [] then true
    else if a[0] != b[0] then Less(a[0], b[0])
    else LessParts(a[1..], b[1..])
  }

  /** The components of a listed path from `base` on. */
  ghost function Beyond(base: string, e: Entry): seq<string>
  {
    Paths.Split(if Prefix(base) <= e.path then e.path[|Prefix(base)|..] else "")
  }

  ghost predicate WalkOrdered(base: string, es: seq<Entry>)
  {
    forall i, j :: 0 <= i < j < |es| ==> LessParts(Beyond(base, es[i]), Beyond(base, es[j]))
  }

  lemma {:induction false} FirstComponent(s: string)
    ensures Paths.Split(s)[0] == First(s)
  {
    if s != "" && s[0] != '/' {
      FirstComponent(s[1..]);
    }
  }

  lemma HeadThenTail(h: string, a: seq<string>, b: seq<string>)
    ensures LessParts([h] + a, [h] + b) <==> LessParts(a, b)
  {
    assert ([h] + a)[1..] == a && ([h] + b)[1..] == b;
  }

  /** Beyond `base`, an entry of a directory has the directory's name and then its own components. */
  lemma BeyondDirectory(base: string, name: string, e: Entry)
    requires ProperName(name) && Prefix(JoinRelative(base, name)) <= e.path
    ensures Beyond(base, e) == [name] + Beyond(JoinRelative(base, name), e)
  {
    JoinedPrefix(base, name);
    var path := JoinRelative(base, name);
    var rest := e.path[|path| + 1..];
    assert e.path == path + "/" + rest == Prefix(base) + (name + "/" + rest);
    Paths.SplitAppend(name, rest);
    Paths.SplitSingle(name);
  }

  lemma BeyondItself(base: string, name: string, e: Entry)
    requires ProperName(name) && e.path == JoinRelative(base, name)
    ensures Beyond(base, e) == [name]
  {
    assert e.path == Prefix(base) + name;
    Paths.SplitSingle(name);
  }

  /** Everything listed for one sibling starts with its name. */
  lemma NodeStarts(base: string, name: string, node: Node, e: Entry)
    requires ProperName(name) && (node.Directory? ==> Sorted(node.children))
    requires e in NodeListing(JoinRelative(base, name), name, node)
    ensures Beyond(base, e) != [] && Beyond(base, e)[0] == name
  {
    NodeBelow(base, name, node);
    BranchOf(base, name, e);
    FirstComponent(e.path[|Prefix(base)|..]);
  }

  lemma OthersStart(base: string, f: Forest, e: Entry)
    requires Sorted(f) && e in Listing(base, f)
    ensures Beyond(base, e) != [] && Beyond(base, e)[0] in Names(f)
  {
    ListingBranches(base, f);
    VisibleNames(base, f);
    FirstComponent(e.path[|Prefix(base)|..]);
  }

  lemma WalkAppend(base: string, a: seq<Entry>, b: seq<Entry>)
    requires WalkOrdered(base, a) && WalkOrdered(base, b)
    requires forall x, y :: x in a && y in b ==> LessParts(Beyond(base, x), Beyond(base, y))
    ensures WalkOrdered(base, a + b)
  {
    var ab := a + b;
    forall i, j | 0 <= i < j < |ab| ensures LessParts(Beyond(base, ab[i]), Beyond(base, ab[j]))
    {
      if i < |a| && |a| <= j { assert a[i] in a && b[j - |a|] in b; }
    }
  }

  /** Inside a directory the order from outside is the order from inside. */
  lemma ContentsOrdered(base: string, name: string, children: Forest)
    requires ProperName(name) && Sorted(children)
    requires var path := JoinRelative(base, name); WalkOrdered(path, Listing(path, children))
    ensures WalkOrdered(base, Listing(JoinRelative(base, name), children))
  {
    var path := JoinRelative(base, name);
    var es := Listing(path, children);
    ListingBranches(path, children);
    forall i, j | 0 <= i < j < |es| ensures LessParts(Beyond(base, es[i]), Beyond(base, es[j]))
    {
      assert es[i] in es && es[j] in es;
      BeyondDirectory(base, name, es[i]);
      BeyondDirectory(base, name, es[j]);
      HeadThenTail(name, Beyond(path, es[i]), Beyond(path, es[j]));
    }
  }

  lemma {:induction false} NodeOrdered(base: string, name: string, node: Node)
    requires ProperName(name) && (node.Directory? ==> Sorted(node.children))
    ensures WalkOrdered(base, NodeListing(JoinRelative(base, name), name, node))
    decreases node, 1
  {
    var path := JoinRelative(base, name);
    if !Skipped(path, node) && node.Directory? {
      WalkIsComponentOrder(path, node.children);
      ContentsOrdered(base, name, node.children);
      var head, contents := NewEntry(path, name, node), Listing(path, node.children);
      ListingBranches(path, node.children);
      forall y | y in contents ensures LessParts(Beyond(base, head), Beyond(base, y))
      {
        BeyondItself(base, name, head);
        BeyondDirectory(base, name, y);
        HeadThenTail(name, [], Beyond(path, y));
        assert [name] + [] == [name];
      }
      WalkAppend(base, [head], contents);
    }
  }

  /** On every sorted tree, whatever the names, the walk lists the paths in component order. */
  lemma {:induction false} WalkIsComponentOrder(base: string, f: Forest)
    requires Sorted(f)
    ensures WalkOrdered(base, Listing(base, f))
    decreases f, 0
  {
    match f
    case Empty =>
    case Sibling(name, node, rest) =>
      var here, there := NodeListing(JoinRelative(base, name), name, node), Listing(base, rest);
      NodeOrdered(base, name, node);
      WalkIsComponentOrder(base, rest);
      forall x, y | x in here && y in there ensures LessParts(Beyond(base, x), Beyond(base, y))
      {
        NodeStarts(base, name, node, x);
        OthersStart(base, rest, y);
        Trichotomy(name, Beyond(base, y)[0]);
      }
      WalkAppend(base, here, there);
  }
}
