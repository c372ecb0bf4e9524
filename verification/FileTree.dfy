/** A mount's directory tree as a finite map from component paths to nodes, and the algebra of
    cutting a subtree out and putting one in that renames, copies and removals are made of. */
module FileTree {
  import Paths

  type byte = b: int | 0 <= b < 256
  type Bytes = seq<byte>
  type Path = seq<string>

  /** `Special` is whatever else a directory can hold (a socket, a device, …), of a reported size. */
  datatype Node = Dir | File(data: Bytes) | Symlink(target: string) | Special(size: nat)

  type Tree = map<Path, Node>

  /** The root is a directory, and so is the parent of everything else. */
  ghost predicate Rooted(t: Tree)
  {
    && [] in t && t[[]] == Dir
    && forall p {:trigger Hangs(t, p)} :: p in t && p != [] ==> Hangs(t, p)
  }

  predicate Hangs(t: Tree, p: Path)
  {
    p != [] && p[..|p| - 1] in t && t[p[..|p| - 1]] == Dir
  }

  // ---- Cutting and grafting ----

  /** What is at or below `p`, seen from `p`. */
  function Subtree(t: Tree, p: Path): Tree
  {
    map r | r in (set q | q in t && p <= q :: q[|p|..]) && p + r in t :: t[p + r]
  }

  function Without(t: Tree, p: Path): Tree
  {
    map q | q in t && !(p <= q) :: t[q]
  }

  /** `t` with the subtree `s` put in at `p`. */
  function Placed(t: Tree, p: Path, s: Tree): Tree
  {
    map q | q in t.Keys + (set r | r in s :: p + r) && (q in t || (p <= q && q[|p|..] in s)) ::
      if p <= q && q[|p|..] in s then s[q[|p|..]] else t[q]
  }

  lemma SubtreeAt(t: Tree, p: Path, r: Path)
    ensures r in Subtree(t, p) <==> p + r in t
    ensures r in Subtree(t, p) ==> Subtree(t, p)[r] == t[p + r]
  {
    if p + r in t {
      assert (p + r)[|p|..] == r;
    }
  }

  lemma PlacedAt(t: Tree, p: Path, s: Tree, q: Path)
    ensures q in Placed(t, p, s) <==> (p <= q && q[|p|..] in s) || q in t
    ensures p <= q && q[|p|..] in s ==> Placed(t, p, s)[q] == s[q[|p|..]]
    ensures !(p <= q && q[|p|..] in s) && q in t ==> Placed(t, p, s)[q] == t[q]
  {
    if p <= q && q[|p|..] in s {
      assert p + q[|p|..] == q;
    }
  }

  predicate SameAt(a: Tree, b: Tree, q: Path)
  {
    (q in a <==> q in b) && (q in a ==> a[q] == b[q])
  }

  lemma SameEverywhere(a: Tree, b: Tree)
    requires forall q :: SameAt(a, b, q)
    ensures a == b
  {
    forall q ensures (q in a <==> q in b) && (q in a ==> a[q] == b[q])
    {
      assert SameAt(a, b, q);
    }
  }

  /** What is at `p + r` in one tree is at `q + r` in the other. */
  predicate SameBelow(a: Tree, p: Path, b: Tree, q: Path, r: Path)
  {
    (p + r in a <==> q + r in b) && (p + r in a ==> a[p + r] == b[q + r])
  }

  lemma SameSubtrees(a: Tree, p: Path, b: Tree, q: Path)
    requires forall r :: SameBelow(a, p, b, q, r)
    ensures Subtree(a, p) == Subtree(b, q)
  {
    forall r ensures SameAt(Subtree(a, p), Subtree(b, q), r)
    {
      assert SameBelow(a, p, b, q, r);
      SubtreeAt(a, p, r);
      SubtreeAt(b, q, r);
    }
    SameEverywhere(Subtree(a, p), Subtree(b, q));
  }

  lemma SubtreesAgree(a: Tree, b: Tree, p: Path, q: Path)
    requires Subtree(a, p) == Subtree(b, p) && p <= q
    ensures SameAt(a, b, q)
  {
    SubtreeAt(a, p, q[|p|..]);
    SubtreeAt(b, p, q[|p|..]);
    assert p + q[|p|..] == q;
  }

  /** The trees agree on everything that is not at or below `p`. */
  ghost predicate SameOutside(a: Tree, b: Tree, p: Path)
  {
    forall q {:trigger SameAt(a, b, q)} :: !(p <= q) ==> SameAt(a, b, q)
  }

  lemma SameOutsideOfMore(a: Tree, b: Tree, p: Path, q: Path)
    requires SameOutside(a, b, q) && p <= q
    ensures SameOutside(a, b, p)
  {
    forall r | !(p <= r) ensures SameAt(a, b, r)
    {
      LongerPrefix(p, q, r);
    }
  }

  lemma LongerPrefix(p: Path, q: Path, r: Path)
    ensures p <= q && q <= r ==> p <= r
  {
    if p <= q && q <= r {
      assert p == q[..|p|] == r[..|p|];
    }
  }

  lemma SameOutsideTrans(a: Tree, b: Tree, c: Tree, p: Path)
    requires SameOutside(a, b, p) && SameOutside(b, c, p)
    ensures SameOutside(a, c, p)
  {
    forall q | !(p <= q) ensures SameAt(a, c, q)
    {
      assert SameAt(a, b, q) && SameAt(b, c, q);
    }
  }

  lemma UpdateOutside(t: Tree, after: Tree, p: Path)
    requires p in after && (after == t || after == t[p := after[p]])
    ensures SameOutside(after, t, p)
  {
  }

  lemma PlacedOutside(t: Tree, p: Path, s: Tree)
    ensures SameOutside(Placed(t, p, s), t, p)
  {
    forall q | !(p <= q) ensures SameAt(Placed(t, p, s), t, q)
    {
      PlacedAt(t, p, s, q);
    }
  }

  predicate Free(t: Tree, p: Path)
  {
    forall q :: q in t ==> !(p <= q)
  }

  /** In a rooted tree nothing hangs below a path that is not there. */
  lemma {:induction false} AbsentIsFree(t: Tree, p: Path)
    requires Rooted(t) && p !in t
    ensures Free(t, p)
  {
    forall q | q in t ensures !(p <= q)
    {
      if p <= q {
        PrefixPresent(t, p, q);
      }
    }
  }

  lemma {:induction false} PrefixPresent(t: Tree, p: Path, q: Path)
    requires Rooted(t) && q in t && p <= q
    ensures p in t && (p != q ==> t[p] == Dir)
    decreases |q|
  {
    if p != q {
      assert Hangs(t, q);
      var up := q[..|q| - 1];
      assert p <= up;
      PrefixPresent(t, p, up);
    }
  }

  /** Taking out what was just put in gives it back, and leaves the rest as it was. */
  lemma CutPlaced(t: Tree, p: Path, s: Tree)
    requires Free(t, p)
    ensures Subtree(Placed(t, p, s), p) == s
    ensures Without(Placed(t, p, s), p) == t
  {
    var both := Placed(t, p, s);
    forall r ensures r in Subtree(both, p) <==> r in s
      ensures r in s ==> Subtree(both, p)[r] == s[r]
    {
      SubtreeAt(both, p, r);
      PlacedAt(t, p, s, p + r);
      assert (p + r)[|p|..] == r;
    }
    assert Subtree(both, p) == s;
    forall q ensures q in Without(both, p) <==> q in t
      ensures q in t ==> Without(both, p)[q] == t[q]
    {
      PlacedAt(t, p, s, q);
    }
  }

  /** Putting back what was cut out restores the tree. */
  lemma PlaceCut(t: Tree, p: Path)
    ensures Placed(Without(t, p), p, Subtree(t, p)) == t
  {
    forall q ensures q in Placed(Without(t, p), p, Subtree(t, p)) <==> q in t
      ensures q in t ==> Placed(Without(t, p), p, Subtree(t, p))[q] == t[q]
    {
      PlacedAt(Without(t, p), p, Subtree(t, p), q);
      if p <= q {
        SubtreeAt(t, p, q[|p|..]);
        assert p + q[|p|..] == q;
      }
    }
  }

  lemma {:induction false} LeafSubtree(t: Tree, p: Path)
    requires Rooted(t) && p in t && t[p] != Dir
    ensures Subtree(t, p) == map[[] := t[p]]
  {
    forall r ensures SameAt(Subtree(t, p), map[[] := t[p]], r)
    {
      SubtreeAt(t, p, r);
      if p + r in t {
        assert p <= p + r;
        PrefixPresent(t, p, p + r);
        assert p + r == p;
      }
      assert p + [] == p;
    }
    SameEverywhere(Subtree(t, p), map[[] := t[p]]);
  }

  /** Rewriting a leaf leaves a leaf. */
  lemma UpdatedLeaf(t: Tree, p: Path, n: Node)
    requires Rooted(t) && p in t && t[p] != Dir
    ensures Subtree(t[p := n], p) == map[[] := n]
  {
    var after := t[p := n];
    LeafSubtree(t, p);
    forall r ensures SameAt(Subtree(after, p), map[[] := n], r)
    {
      SubtreeAt(t, p, r);
      SubtreeAt(after, p, r);
      assert r == [] ==> p + r == p;
      assert r != [] ==> |p + r| > |p|;
    }
    SameEverywhere(Subtree(after, p), map[[] := n]);
  }

  lemma PlacedLeaf(t: Tree, p: Path, n: Node)
    ensures Placed(t, p, map[[] := n]) == t[p := n]
  {
    var after := t[p := n];
    forall q ensures SameAt(Placed(t, p, map[[] := n]), after, q)
    {
      PlacedAt(t, p, map[[] := n], q);
      assert p <= q && q[|p|..] == [] ==> q == p;
    }
    SameEverywhere(Placed(t, p, map[[] := n]), after);
  }

  lemma PlacedNothing(t: Tree, p: Path)
    ensures Placed(t, p, map[]) == t
  {
    forall q ensures SameAt(Placed(t, p, map[]), t, q)
    {
      PlacedAt(t, p, map[], q);
    }
    SameEverywhere(Placed(t, p, map[]), t);
  }

  predicate Apart(p: Path, q: Path)
  {
    !(p <= q) && !(q <= p)
  }

  // ---- The calls of `os.Root` ----

  datatype Presence = Found(node: Node) | NotExist | Failed

  /** `Lstat`. A path through something that is not a directory is an error other than absence. */
  function Lstat(t: Tree, p: Path): Presence
  {
    if p in t then Found(t[p])
    else if exists k :: 0 <= k < |p| && p[..k] in t && t[p[..k]] != Dir then Failed
    else NotExist
  }

  /** A path is plainly absent exactly when all that exists on the way to it are directories. */
  lemma AbsentMeans(t: Tree, p: Path)
    ensures Lstat(t, p) == NotExist <==> p !in t && forall q :: q < p && q in t ==> t[q] == Dir
    ensures Lstat(t, p).Found? <==> p in t
    ensures p in t ==> Lstat(t, p) == Found(t[p])
  {
    if p !in t {
      forall k | 0 <= k < |p| ensures p[..k] < p {}
      forall q | q < p ensures q == p[..|q|] {}
    }
  }

  /** Where a new entry can be made: a free name in an existing directory. */
  predicate Makeable(t: Tree, p: Path)
  {
    p !in t && Hangs(t, p)
  }

  lemma MakeableIsAbsent(t: Tree, p: Path)
    requires Rooted(t) && Makeable(t, p)
    ensures Lstat(t, p) == NotExist
  {
    AbsentMeans(t, p);
    var up := p[..|p| - 1];
    forall q | q < p && q in t ensures t[q] == Dir
    {
      assert q <= up;
      PrefixPresent(t, q, up);
    }
  }

  lemma MakingKeepsRooted(t: Tree, p: Path, n: Node)
    requires Rooted(t) && Makeable(t, p)
    ensures Rooted(t[p := n])
  {
    var after := t[p := n];
    forall q | q in after && q != [] ensures Hangs(after, q)
    {
      AbsentIsFree(t, p);
      assert q in t ==> Hangs(t, q);
      assert q[..|q| - 1] <= q;
    }
  }

  lemma UpdatingFileKeepsRooted(t: Tree, p: Path, data: Bytes)
    requires Rooted(t) && p in t && t[p].File?
    ensures Rooted(t[p := File(data)])
  {
    var after := t[p := File(data)];
    forall q | q in after && q != [] ensures Hangs(after, q)
    {
      assert Hangs(t, q);
    }
  }

  /** Whether `rename(2)` accepts the pair; it replaces a file, or an empty directory by a directory. */
  predicate Renameable(t: Tree, from: Path, to: Path)
  {
    && from != [] && from in t && Hangs(t, to)
    && !(from <= to)
    && (to in t ==>
          if t[from] == Dir then t[to] == Dir && (forall q :: q in t && to <= q ==> q == to) else t[to] != Dir)
  }

  function Renamed(t: Tree, from: Path, to: Path): Tree
  {
    Placed(Without(Without(t, to), from), to, Subtree(t, from))
  }

  lemma TwoPrefixes(p: Path, q: Path, r: Path)
    ensures p <= r && q <= r ==> !Apart(p, q)
  {
    if p <= r && q <= r {
      var n := if |p| <= |q| then |p| else |q|;
      assert p[..n] == r[..n] == q[..n];
    }
  }

  lemma RenamedAt(t: Tree, from: Path, to: Path, q: Path)
    requires Apart(from, to)
    ensures var after := Renamed(t, from, to);
            && (to <= q ==> (q in after <==> from + q[|to|..] in t) && (q in after ==> after[q] == t[from + q[|to|..]]))
            && (from <= q ==> q !in after)
            && (!(to <= q) && !(from <= q) ==> SameAt(after, t, q))
  {
    PlacedAt(Without(Without(t, to), from), to, Subtree(t, from), q);
    if to <= q {
      SubtreeAt(t, from, q[|to|..]);
    }
    TwoPrefixes(from, to, q);
  }

  /** Moving something to a free place and back restores the tree. */
  lemma MoveBackRestores(t: Tree, from: Path, to: Path)
    requires Apart(from, to) && Free(t, to)
    ensures Renamed(Renamed(t, from, to), to, from) == t
  {
    var moved := Renamed(t, from, to);
    forall q ensures SameAt(Renamed(moved, to, from), t, q)
    {
      RenamedAt(moved, to, from, q);
      if from <= q {
        var r := q[|from|..];
        assert from + r == q && to <= to + r && (to + r)[|to|..] == r;
        RenamedAt(t, from, to, to + r);
      } else {
        RenamedAt(t, from, to, q);
      }
    }
    SameEverywhere(Renamed(moved, to, from), t);
  }

  /** `t` with every missing directory on the way to `p`, and `p` itself. */
  function WithDirs(t: Tree, p: Path): Tree
  {
    map q | q in t.Keys + (set k | 0 <= k <= |p| :: p[..k]) :: if q in t then t[q] else Dir
  }

  lemma WithDirsAt(t: Tree, p: Path, q: Path)
    ensures q in WithDirs(t, p) <==> q in t || q <= p
    ensures q in t ==> WithDirs(t, p)[q] == t[q]
    ensures q in WithDirs(t, p) && q !in t ==> WithDirs(t, p)[q] == Dir
  {
    if q <= p {
      assert q == p[..|q|];
    }
  }

  /** One `Mkdir` of the many that `mkdirAllRoot` makes, an existing name being no error. */
  lemma WithDirsStep(t: Tree, p: Path, k: nat)
    requires k < |p|
    ensures var before := WithDirs(t, p[..k]);
            WithDirs(t, p[..k + 1]) == if p[..k + 1] in before then before else before[p[..k + 1] := Dir]
  {
    var before := WithDirs(t, p[..k]);
    var made := p[..k + 1];
    var after := if made in before then before else before[made := Dir];
    forall q ensures SameAt(WithDirs(t, made), after, q)
    {
      WithDirsAt(t, p[..k], q);
      WithDirsAt(t, made, q);
      NextPrefix(p, k, q);
    }
    SameEverywhere(WithDirs(t, made), after);
  }

  lemma NextPrefix(p: Path, k: nat, q: Path)
    requires k < |p|
    ensures q <= p[..k + 1] <==> q <= p[..k] || q == p[..k + 1]
  {
    if q <= p[..k + 1] {
      assert q == p[..k + 1][..|q|] == p[..|q|];
    }
    if q <= p[..k] {
      assert q == p[..k][..|q|] == p[..|q|];
    }
  }

  lemma WithDirsNothing(t: Tree)
    requires [] in t
    ensures WithDirs(t, []) == t
  {
    forall q ensures SameAt(WithDirs(t, []), t, q)
    {
      WithDirsAt(t, [], q);
    }
    SameEverywhere(WithDirs(t, []), t);
  }

  lemma RenamingKeepsRooted(t: Tree, from: Path, to: Path)
    requires Rooted(t) && Renameable(t, from, to) && Apart(from, to)
    ensures Rooted(Renamed(t, from, to))
  {
    var after := Renamed(t, from, to);
    RenamedAt(t, from, to, []);
    forall q | q in after && q != [] ensures Hangs(after, q)
    {
      RenamedHangs(t, from, to, q);
    }
  }

  lemma RenameableApart(t: Tree, from: Path, to: Path)
    requires Rooted(t) && Renameable(t, from, to)
    ensures Apart(from, to)
  {
    if to <= from && to != from {
      PrefixPresent(t, to, from);
    }
  }

  lemma RenamedHangs(t: Tree, from: Path, to: Path, q: Path)
    requires Rooted(t) && Renameable(t, from, to) && Apart(from, to)
    requires q in Renamed(t, from, to) && q != []
    ensures Hangs(Renamed(t, from, to), q)
  {
    var up := q[..|q| - 1];
    assert up <= q;
    RenamedAt(t, from, to, q);
    RenamedAt(t, from, to, up);
    LongerPrefix(from, up, q);
    LongerPrefix(to, up, q);
    if to <= up {
      assert q[|to|..][..|q| - |to| - 1] == up[|to|..];
      assert Hangs(t, from + q[|to|..]);
      assert (from + q[|to|..])[..|from| + |q| - |to| - 1] == from + up[|to|..];
    } else if to <= q {
      assert q == to;
    } else {
      assert Hangs(t, q);
    }
  }

  // ---- Removing a whole subtree, entry by entry ----

  function StrictlyBelow(t: Tree, p: Path): set<Path>
  {
    set q | q in t && p <= q && q != p
  }

  /** Below every entry there is one that holds nothing itself. */
  lemma {:induction false} LeafBelow(t: Tree, p: Path) returns (leaf: Path)
    requires p in t
    ensures leaf in t && p <= leaf && StrictlyBelow(t, leaf) == {}
    decreases |StrictlyBelow(t, p)|
  {
    if StrictlyBelow(t, p) == {} {
      leaf := p;
    } else {
      var q :| q in StrictlyBelow(t, p);
      assert StrictlyBelow(t, q) <= StrictlyBelow(t, p) - {q};
      SetShrinks(StrictlyBelow(t, q), StrictlyBelow(t, p), q);
      leaf := LeafBelow(t, q);
    }
  }

  lemma SetShrinks(a: set<Path>, b: set<Path>, q: Path)
    requires q in b && a <= b - {q}
    ensures |a| < |b|
  {
    var rest := (b - {q}) - a;
    assert b - {q} == a + rest;
  }

  lemma ChildBelow(t: Tree, p: Path, name: string)
    requires p + [name] in t
    ensures |StrictlyBelow(t, p + [name])| < |StrictlyBelow(t, p)|
  {
    assert StrictlyBelow(t, p + [name]) <= StrictlyBelow(t, p) - {p + [name]} by {
      forall q | q in StrictlyBelow(t, p + [name]) ensures q in StrictlyBelow(t, p)
      {
        assert p <= p + [name];
      }
    }
    SetShrinks(StrictlyBelow(t, p + [name]), StrictlyBelow(t, p), p + [name]);
  }

  /** `t` is what `RemoveAll(p)` left of `before` when it stopped. */
  ghost predicate RemovedPartly(before: Tree, t: Tree, p: Path)
  {
    && (forall q :: q in t ==> q in before && t[q] == before[q])
    && (forall q :: q in before && !(p <= q) ==> q in t)
  }

  lemma RemovedWholly(before: Tree, t: Tree, p: Path)
    requires RemovedPartly(before, t, p) && Free(t, p)
    ensures t == Without(before, p)
  {
  }

  lemma LeafHoldsNothing(t: Tree, p: Path)
    requires Rooted(t) && p in t && t[p] != Dir
    ensures StrictlyBelow(t, p) == {}
  {
    forall q | q in t && p <= q ensures q == p
    {
      PrefixPresent(t, p, q);
    }
  }

  lemma LeafRemoved(t: Tree, p: Path)
    requires Rooted(t) && p in t && t[p] != Dir
    ensures Without(t, p) == t - {p}
  {
    forall q | q in t && p <= q ensures q == p
    {
      PrefixPresent(t, p, q);
    }
  }

  lemma SameOutsidePartly(before: Tree, partial: Tree, t: Tree, p: Path)
    requires SameOutside(partial, before, p) && RemovedPartly(partial, t, p)
    ensures SameOutside(t, before, p)
  {
    forall q | !(p <= q) ensures SameAt(t, before, q)
    {
      assert SameAt(partial, before, q);
    }
  }

  lemma RemovedBack(before: Tree, t: Tree, p: Path)
    requires SameOutside(t, before, p) && Free(before, p)
    ensures Without(t, p) == before
  {
    forall q ensures SameAt(Without(t, p), before, q)
    {
      if !(p <= q) {
        assert SameAt(t, before, q);
      }
    }
    SameEverywhere(Without(t, p), before);
  }

  lemma LeafRemovalKeepsRooted(t: Tree, leaf: Path)
    requires Rooted(t) && leaf != [] && StrictlyBelow(t, leaf) == {}
    ensures Rooted(t - {leaf})
  {
    var after := t - {leaf};
    forall q | q in after && q != [] ensures Hangs(after, q)
    {
      assert Hangs(t, q);
      assert q[..|q| - 1] <= q;
      assert q !in StrictlyBelow(t, leaf);
    }
  }

  // ---- Paths in requests ----

  datatype Option<+T> = None | Some(value: T)

  /** The file or directory a request names; the mount itself is not one. */
  function Named(value: string): (p: Option<Path>)
    ensures p.Some? ==> p.value != []
  {
    match Paths.CleanRelativePath(value)
    case Ok(cleaned) => if cleaned == "." || cleaned == "" then None else Some(Paths.Parts(cleaned))
    case Err(_) => None
  }

  /** It is the cleaned request, component by component; a request that is refused, and one for the
      mount itself, name nothing. */
  lemma NamedIsCleaned(value: string)
    ensures Named(value) == None <==> Paths.CleanRelativePath(value).Err? || Paths.CleanRelativePath(value) == Paths.Ok(".")
    ensures Named(value).Some? ==>
              Paths.Join(Named(value).value) == Paths.CleanRelativePath(value).value && Paths.CleanParts(Named(value).value)
  {
    if Paths.CleanRelativePath(value).Ok? {
      var cleaned := Paths.CleanRelativePath(value).value;
      Paths.CleanRelativePathAccepts(value);
      Paths.JoinSplit(cleaned);
      assert Paths.Split("") == [""] && "" in [""];
    }
  }

  /** No request reaches into the reserved directory. */
  lemma NamedIsVisible(value: string)
    ensures Named(value).Some? ==> Named(value).value[0] != Paths.RESERVED_NAMESPACE
  {
    if Named(value).Some? {
      Paths.CleanRelativePathAccepts(value);
    }
  }

  lemma NamedIsClean(value: string)
    requires Named(value).Some?
    ensures Paths.CleanParts(Named(value).value)
  {
    Paths.CleanRelativePathAccepts(value);
  }

  /** `rejectSymlinkPath`: every component is there and none is a symbolic link. */
  method RejectSymlinkPath(t: Tree, p: Path, steady: bool) returns (ok: bool)
    requires Rooted(t)
    ensures ok ==> p in t && !t[p].Symlink?
    ensures steady && p in t && !t[p].Symlink? ==> ok
  {
    var index := 0;
    while index < |p|
      invariant 0 <= index <= |p|
      invariant index > 0 ==> p[..index] in t && !t[p[..index]].Symlink?
    {
      var current := p[..index + 1];
      if !steady { if * { return false; } }
      if p in t { PrefixPresent(t, current, p); }
      if current !in t || t[current].Symlink? { return false; }
      index := index + 1;
    }
    assert p[..|p|] == p;
    return true;
  }

  lemma HoldsNothingIff(t: Tree, p: Path)
    ensures StrictlyBelow(t, p) == {} <==> forall q :: q in t && p <= q ==> q == p
  {
    if q :| q in t && p <= q && q != p { assert q in StrictlyBelow(t, p); }
  }

  /** Some entry at or below `p` that holds nothing, as `RemoveAll` would take next. */
  method PickRemovable(t: Tree, p: Path) returns (gone: Path)
    requires Rooted(t) && exists q :: q in t && p <= q
    ensures gone in t && p <= gone && StrictlyBelow(t, gone) == {}
    ensures p != [] ==> Rooted(t - {gone})
  {
    ghost var some :| some in t && p <= some;
    ghost var leaf := LeafBelow(t, some);
    LongerPrefix(p, some, leaf);
    gone :| gone in t && p <= gone && StrictlyBelow(t, gone) == {};
    if p != [] {
      LeafRemovalKeepsRooted(t, gone);
    }
  }
}
