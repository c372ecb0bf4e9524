/** Copying and moving between two mounts: `copyFileVerified`, `copyDirTree`, `CopyAcrossMounts`,
    `Delete` and `MoveAcrossMounts`. Any call into the file system may fail, and the entries of a
    directory come in any order. */
module CrossMount {
  import opened FileTree
  import Paths
  import PathCleaning

  /** The kinds of nodes that a recursive copy carries over. */
  predicate Carried(n: Node)
  {
    n.Dir? || n.File?
  }

  function Kept(s: Tree): Tree
  {
    map r | r in s && Carried(s[r]) :: s[r]
  }

  /** The part of a subtree under the given children, and its root. */
  function Only(s: Tree, names: set<string>): Tree
  {
    map r | r in s && (r == [] || r[0] in names) :: s[r]
  }

  function Children(t: Tree, p: Path): set<string>
  {
    set q | q in t && |q| == |p| + 1 && p <= q :: q[|p|]
  }

  lemma ChildIsThere(t: Tree, p: Path, name: string)
    ensures name in Children(t, p) <==> p + [name] in t
  {
    if name in Children(t, p) {
      var q :| q in t && |q| == |p| + 1 && p <= q && q[|p|] == name;
      assert q == p + [name];
    }
    if p + [name] in t {
      assert (p + [name])[|p|] == name;
    }
  }

  lemma FirstIsChild(t: Tree, p: Path, r: Path)
    requires Rooted(t) && r != [] && p + r in t
    ensures r[0] in Children(t, p)
  {
    assert p + [r[0]] <= p + r;
    PrefixPresent(t, p + [r[0]], p + r);
    ChildIsThere(t, p, r[0]);
  }

  lemma OnlyChildren(t: Tree, p: Path)
    requires Rooted(t)
    ensures Only(Subtree(t, p), Children(t, p)) == Subtree(t, p)
  {
    var names := Children(t, p);
    forall r | r in Subtree(t, p) && r != [] ensures r[0] in names
    {
      SubtreeAt(t, p, r);
      FirstIsChild(t, p, r);
    }
  }

  /** Whether the copy of the given children of `from` puts something at `to + r`. */
  predicate Reaches(s: Tree, from: Path, names: set<string>, r: Path)
  {
    from + r in s && Carried(s[from + r]) && (r == [] || r[0] in names)
  }

  function Part(d: Tree, s: Tree, from: Path, to: Path, names: set<string>): Tree
  {
    Placed(d, to, Kept(Only(Subtree(s, from), names)))
  }

  lemma PartAt(d: Tree, s: Tree, from: Path, to: Path, names: set<string>, q: Path)
    ensures q in Part(d, s, from, to, names) <==> (to <= q && Reaches(s, from, names, q[|to|..])) || q in d
    ensures to <= q && Reaches(s, from, names, q[|to|..]) ==>
              Part(d, s, from, to, names)[q] == s[from + q[|to|..]]
    ensures !(to <= q && Reaches(s, from, names, q[|to|..])) && q in d ==> Part(d, s, from, to, names)[q] == d[q]
  {
    PlacedAt(d, to, Kept(Only(Subtree(s, from), names)), q);
    if to <= q {
      SubtreeAt(s, from, q[|to|..]);
    }
  }

  /** The same for all of a child's subtree. */
  lemma ChildAt(part: Tree, s: Tree, from: Path, to: Path, name: string, q: Path)
    ensures var whole := Placed(part, to + [name], Kept(Subtree(s, from + [name])));
            var hit := to <= q && q != to && q[|to|] == name && from + q[|to|..] in s && Carried(s[from + q[|to|..]]);
            && (q in whole <==> hit || q in part)
            && (hit ==> whole[q] == s[from + q[|to|..]])
            && (!hit && q in part ==> whole[q] == part[q])
  {
    PlacedAt(part, to + [name], Kept(Subtree(s, from + [name])), q);
    if to + [name] <= q {
      BelowChild(to, name, q);
      BelowChild(from, name, from + q[|to|..]);
      SubtreeAt(s, from + [name], q[|to| + 1..]);
      assert from + [name] + q[|to| + 1..] == from + q[|to|..];
    } else if to <= q && q != to && q[|to|] == name {
      BelowChild(to, name, q);
      assert false;
    }
  }

  lemma BelowChild(p: Path, name: string, q: Path)
    ensures p + [name] <= q <==> p <= q && q != p && q[|p|] == name
    ensures p + [name] <= q ==> q[|p|..] == [name] + q[|p| + 1..]
  {
    if p <= q && q != p && q[|p|] == name {
      assert q[..|p| + 1] == q[..|p|] + [q[|p|]];
    }
    if p + [name] <= q {
      assert q[..|p|] == (p + [name])[..|p|];
    }
  }

  lemma OneMoreAt(d: Tree, s: Tree, from: Path, to: Path, names: set<string>, name: string, q: Path)
    ensures SameAt(Placed(Part(d, s, from, to, names), to + [name], Kept(Subtree(s, from + [name]))),
                   Part(d, s, from, to, names + {name}), q)
  {
    ChildAt(Part(d, s, from, to, names), s, from, to, name, q);
    PartAt(d, s, from, to, names, q);
    PartAt(d, s, from, to, names + {name}, q);
  }

  /** Copying one more child extends the part. */
  lemma OneMoreChild(d: Tree, s: Tree, from: Path, to: Path, names: set<string>, name: string)
    ensures Placed(Part(d, s, from, to, names), to + [name], Kept(Subtree(s, from + [name]))) ==
            Part(d, s, from, to, names + {name})
  {
    var left := Placed(Part(d, s, from, to, names), to + [name], Kept(Subtree(s, from + [name])));
    var right := Part(d, s, from, to, names + {name});
    forall q ensures SameAt(left, right, q)
    {
      OneMoreAt(d, s, from, to, names, name, q);
    }
    SameEverywhere(left, right);
  }

  lemma NoChildYet(d: Tree, s: Tree, from: Path, to: Path)
    requires from in s && s[from] == Dir
    ensures Part(d, s, from, to, {}) == d[to := Dir]
  {
    var after := d[to := Dir];
    forall q ensures SameAt(Part(d, s, from, to, {}), after, q)
    {
      PartAt(d, s, from, to, {}, q);
      assert from + [] == from;
      assert to <= q && q[|to|..] == [] ==> q == to;
    }
    SameEverywhere(Part(d, s, from, to, {}), after);
  }

  lemma ChildFree(d: Tree, s: Tree, from: Path, to: Path, names: set<string>, name: string)
    requires Free(d, to) && name !in names && from in s && s[from] == Dir
    ensures Free(Part(d, s, from, to, names), to + [name])
    ensures Makeable(Part(d, s, from, to, names), to + [name])
  {
    var part := Part(d, s, from, to, names);
    forall q | q in part ensures !(to + [name] <= q)
    {
      PartAt(d, s, from, to, names, q);
      BelowChild(to, name, q);
    }
    PartAt(d, s, from, to, names, to);
    assert from + [] == from && to[|to|..] == [];
    assert (to + [name])[..|to|] == to;
  }

  /** Of an entry that is not a directory, the copy has the content if it is a regular file, and
      nothing otherwise. */
  lemma LeafCopied(d: Tree, s: Tree, from: Path, to: Path)
    requires Rooted(s) && from in s && s[from] != Dir
    ensures Placed(d, to, Kept(Subtree(s, from))) == if s[from].File? then d[to := s[from]] else d
  {
    LeafSubtree(s, from);
    if s[from].File? {
      assert Kept(map[[] := s[from]]) == map[[] := s[from]];
      PlacedLeaf(d, to, s[from]);
    } else {
      assert Kept(map[[] := s[from]]) == map[];
      PlacedNothing(d, to);
    }
  }

  /** Of a copied directory, exactly the directories and regular files arrive, with their content. */
  lemma CopyHoldsExactly(before: Tree, after: Tree, s: Tree, from: Path, to: Path, r: Path)
    requires Rooted(s) && CopyMade(before, after, s, from, to) && !s[from].Special?
    ensures to + r in after <==> from + r in s && Carried(s[from + r])
    ensures to + r in after ==> after[to + r] == s[from + r]
  {
    PlacedAt(before, to, Kept(Subtree(s, from)), to + r);
    assert to <= to + r && (to + r)[|to|..] == r;
    SubtreeAt(s, from, r);
  }

  /** Every regular file that was at or below `from` is still there, or at its place below `to`. */
  ghost predicate FilesWhole(st: (Tree, Tree), original: Tree, from: Path, to: Path)
  {
    forall r :: from + r in original && original[from + r].File? ==>
      || (from + r in st.0 && st.0[from + r] == original[from + r])
      || (to + r in st.1 && st.1[to + r] == original[from + r])
  }

  lemma CopyKeepsFilesWhole(st: (Tree, Tree), before: Tree, original: Tree, from: Path, to: Path)
    requires Rooted(original) && CopyMade(before, st.1, original, from, to)
    ensures FilesWhole(st, original, from, to)
  {
    forall r | from + r in original && original[from + r].File?
      ensures to + r in st.1 && st.1[to + r] == original[from + r]
    {
      if original[from].Special? {
        assert from <= from + r;
        PrefixPresent(original, from, from + r);
        assert false;
      } else {
        CopyHoldsExactly(before, st.1, original, from, to, r);
      }
    }
  }

  /** Every node that was at or below `from` is still there, or at its place below `to`. */
  ghost predicate NodesWhole(st: (Tree, Tree), original: Tree, from: Path, to: Path)
  {
    forall r :: from + r in original ==>
      || (from + r in st.0 && st.0[from + r] == original[from + r])
      || (to + r in st.1 && st.1[to + r] == original[from + r])
  }

  /** At and below `from` there is nothing but directories and regular files. */
  ghost predicate AllCarried(t: Tree, from: Path)
  {
    forall r :: from + r in t ==> Carried(t[from + r])
  }

  /** What is moved arrives whole exactly when all of it is directories and regular files; the
      source's symbolic links and special files are on neither side afterwards. */
  lemma MoveKeepsNodesIff(before: Tree, after: Tree, original: Tree, from: Path, to: Path)
    requires Rooted(original) && CopyMade(before, after, original, from, to)
    ensures NodesWhole((Without(original, from), after), original, from, to) <==> AllCarried(original, from)
  {
    var st := (Without(original, from), after);
    assert from + [] == from && to + [] == to;
    if original[from].Special? {
      assert !Carried(original[from + []]);
    } else {
      forall r | from + r in original
        ensures Carried(original[from + r]) <==> to + r in after && after[to + r] == original[from + r]
        ensures from + r !in st.0
      {
        CopyHoldsExactly(before, after, original, from, to, r);
        assert from <= from + r;
      }
    }
  }

  const LINKED: Tree := map[[] := Dir, ["d"] := Dir, ["d", "link"] := Symlink("x")]
  const EMPTY_MOUNT: Tree := map[[] := Dir]
  const DIR_ARRIVED: Tree := map[[] := Dir, ["d"] := Dir]

  lemma LinkedIsRooted()
    ensures Rooted(LINKED) && ["d"] + ["link"] in LINKED && LINKED[["d"] + ["link"]] == Symlink("x")
  {
    assert ["d", "link"][..1] == ["d"] && ["d"][..0] == [] && ["d"] + ["link"] == ["d", "link"];
  }

  lemma ArrivedAt(q: Path)
    ensures SameAt(DIR_ARRIVED, Placed(EMPTY_MOUNT, ["d"], Kept(Subtree(LINKED, ["d"]))), q)
  {
    PlacedAt(EMPTY_MOUNT, ["d"], Kept(Subtree(LINKED, ["d"])), q);
    if ["d"] <= q {
      SubtreeAt(LINKED, ["d"], q[1..]);
      assert ["d"] + q[1..] == q;
    }
  }

  /** A directory with a symbolic link in it is moved, and the link is gone. */
  lemma MovedLinkIsLost()
    ensures Rooted(LINKED) && CopyMade(EMPTY_MOUNT, DIR_ARRIVED, LINKED, ["d"], ["d"])
    ensures !NodesWhole((Without(LINKED, ["d"]), DIR_ARRIVED), LINKED, ["d"], ["d"])
  {
    var arrived := Placed(EMPTY_MOUNT, ["d"], Kept(Subtree(LINKED, ["d"])));
    forall q ensures SameAt(DIR_ARRIVED, arrived, q)
    {
      ArrivedAt(q);
    }
    SameEverywhere(DIR_ARRIVED, arrived);
    LinkedIsRooted();
    assert ["d"][..0] == [];
    MoveKeepsNodesIff(EMPTY_MOUNT, DIR_ARRIVED, LINKED, ["d"], ["d"]);
  }

  const CHUNK := 32 * 1024

  datatype Side = Source | Target

  /** `mustCleanDir`: a path that is refused stands for the mount's root. */
  function DirectoryNamed(value: string): Path
  {
    match Paths.CleanRelativePath(value)
    case Ok(cleaned) => Paths.Parts(cleaned)
    case Err(_) => []
  }

  function Destination(from: Path, toDir: string): (p: Path)
    requires from != []
    ensures p != []
  {
    DirectoryNamed(toDir) + [from[|from| - 1]]
  }

  /** The place asked for, as a path: what `path.Join` gives for the target directory and the last
      name of the source, or that name alone when no directory is given or it is refused. */
  function JoinedTarget(from: string, toDir: string): string
    requires Named(from).Some?
  {
    var name := Named(from).value[|Named(from).value| - 1];
    if Paths.CleanRelativePath(toDir).Ok? && !Paths.Blank(toDir) then Paths.Clean(toDir + "/" + name) else name
  }

  lemma OneMoreComponent(dir: string, name: string)
    requires dir != "" && dir[0] != '/' && PathCleaning.Plain(name)
    ensures Paths.Clean(dir + "/" + name) == Paths.Join(Paths.Components(dir) + [name])
  {
    var s := dir + "/" + name;
    assert s[0] == dir[0];
    Paths.SplitAppend(dir, name);
    Paths.SplitSingle(name);
    PathCleaning.ReduceAppend(Paths.Split(dir), [name], false, []);
    assert [name][1..] == [];
  }

  lemma JoinUnder(toDir: string, name: string)
    requires Paths.CleanRelativePath(toDir).Ok? && !Paths.Blank(toDir) && PathCleaning.Plain(name)
    ensures Paths.Join(DirectoryNamed(toDir) + [name]) == Paths.Clean(toDir + "/" + name)
  {
    Paths.CleanRelativePathAccepts(toDir);
    assert DirectoryNamed(toDir) == Paths.Components(toDir);
    OneMoreComponent(toDir, name);
  }

  lemma NoDirectoryNamed(toDir: string)
    requires Paths.CleanRelativePath(toDir).Err? || Paths.Blank(toDir)
    ensures DirectoryNamed(toDir) == []
  {
  }

  lemma JoinAlone(name: string)
    ensures Paths.Join([] + [name]) == name
  {
    assert [] + [name] == [name];
  }

  lemma LastIsPlain(source: Path)
    requires source != [] && Paths.CleanParts(source)
    ensures PathCleaning.Plain(source[|source| - 1])
  {
    assert source[|source| - 1] in source;
  }

  lemma DestinationIsPathJoin(from: string, toDir: string)
    requires Named(from).Some?
    ensures Paths.Join(Destination(Named(from).value, toDir)) == JoinedTarget(from, toDir)
  {
    var source := Named(from).value;
    var name := source[|source| - 1];
    if Paths.CleanRelativePath(toDir).Ok? && !Paths.Blank(toDir) {
      NamedIsClean(from);
      LastIsPlain(source);
      JoinUnder(toDir, name);
    } else {
      NoDirectoryNamed(toDir);
      JoinAlone(name);
    }
  }

  datatype CopyOutcome = Copied(path: Path) | Rejected | CopyFailed(cleaned: bool)
  datatype MoveOutcome = Moved(path: Path) | Incomplete(path: Path) | NotMoved(why: CopyOutcome)

  /** `after` is `before` with a copy of `s` at `from` put at `to`, and nothing else changed. A
      special file yields a regular file of its reported size. */
  ghost predicate CopyMade(before: Tree, after: Tree, s: Tree, from: Path, to: Path)
  {
    && Free(before, to) && Makeable(before, to) && from in s
    && if s[from].Special? then
         && to in after && after == before[to := after[to]]
         && after[to].File? && |after[to].data| == s[from].size
       else after == Placed(before, to, Kept(Subtree(s, from)))
  }

  /** What `CopyAcrossMounts` asks of the two trees. */
  predicate CanCopy(s: Tree, d: Tree, from: Path, dir: Path)
    requires from != []
  {
    && from in s && !s[from].Symlink?
    && dir in d && d[dir] == Dir && dir + [from[|from| - 1]] !in d
  }

  class Mounts {
    const sourceWritable: bool
    const targetWritable: bool
    /** No call to the file system fails but for what stands in the trees. */
    const steady: bool
    var src: Tree
    var dst: Tree
    /** Every state the two mounts have been in since the current operation began. */
    ghost var seen: set<(Tree, Tree)>

    ghost predicate Valid()
      reads this
    {
      Rooted(src) && Rooted(dst) && (src, dst) in seen
    }

    function On(side: Side): Tree
      reads this
    {
      if side == Source then src else dst
    }

    /** Nothing has been taken from the source yet. */
    ghost predicate SourceUntouched()
      reads this
    {
      forall st :: st in seen ==> st.0 == src
    }

    constructor (source: Tree, target: Tree, sourceWritable: bool, targetWritable: bool, steady: bool)
      requires Rooted(source) && Rooted(target)
      ensures Valid() && SourceUntouched() && src == source && dst == target && this.steady == steady
    {
      this.sourceWritable, this.targetWritable, this.steady := sourceWritable, targetWritable, steady;
      src, dst, seen := source, target, {(source, target)};
    }

    method Write(side: Side, tree: Tree)
      modifies this
      ensures src == (if side == Source then tree else old(src))
      ensures dst == (if side == Target then tree else old(dst))
      ensures seen == old(seen) + {(src, dst)}
    {
      if side == Source { src := tree; } else { dst := tree; }
      seen := seen + {(src, dst)};
    }

    /** `copyFileVerified`. A special file yields whatever bytes it yields. */
    method CopyFileVerified(from: Path, to: Path, expectedSize: nat) returns (ok: bool)
      requires Valid() && SourceUntouched() && from in src && !src[from].Dir? && !src[from].Symlink?
      modifies this
      ensures Valid() && SourceUntouched() && src == old(src) && old(seen) <= seen
      ensures dst == old(dst) || (Makeable(old(dst), to) && to in dst && dst == old(dst)[to := dst[to]])
      ensures ok ==> to in dst && dst[to].File? && |dst[to].data| == expectedSize && dst != old(dst)
      ensures ok && src[from].File? ==> dst[to] == src[from]
      ensures steady && src[from].File? && |src[from].data| == expectedSize && Makeable(old(dst), to) ==> ok
    {
      if !steady { if * { return false; } }
      var data: Bytes := *;
      if src[from].File? { data := src[from].data; }
      if to in dst || to == [] || to[..|to| - 1] !in dst || dst[to[..|to| - 1]] != Dir { return false; }
      if !steady { if * { return false; } }
      ghost var before := dst;
      MakingKeepsRooted(dst, to, File([]));
      Write(Target, dst[to := File([])]);
      var written := 0;
      while written < |data|
        invariant 0 <= written <= |data| && src == old(src)
        invariant dst == before[to := File(data[..written])]
        invariant SourceUntouched() && (src, dst) in seen && old(seen) <= seen
      {
        var count := if |data| - written <= CHUNK then |data| - written else CHUNK;
        var stopped := *;
        stopped := stopped && !steady;
        if stopped {
          var short: int := *;
          count := if 0 <= short < count then short else 0;
        }
        var soFar := File(data[..written + count]);
        Write(Target, dst[to := soFar]);
        assert dst == before[to := soFar];
        MakingKeepsRooted(before, to, soFar);
        if stopped { return false; }
        written := written + count;
      }
      assert data[..written] == data;
      MakingKeepsRooted(before, to, File(data));
      if !steady { if * { return false; } }
      if written != expectedSize { return false; }
      if to !in dst || dst[to].Dir? || |dst[to].data| != expectedSize { return false; }
      return true;
    }

    /** One turn of the loop in `copyDirTree`, with the children in `done` already copied. */
    method CopyEntry(from: Path, to: Path, name: string, ghost before: Tree, ghost done: set<string>)
      returns (ok: bool)
      requires Valid() && SourceUntouched() && from in src && src[from] == Dir
      requires Free(before, to) && dst == Part(before, src, from, to, done)
      requires name in Children(src, from) && name !in done
      modifies this
      ensures Valid() && SourceUntouched() && src == old(src) && old(seen) <= seen
      ensures ok ==> dst == Part(before, src, from, to, done + {name})
      ensures SameOutside(dst, old(dst), to + [name])
      ensures steady ==> ok
      decreases |StrictlyBelow(src, from)|, 0
    {
      if !steady { if * { return false; } }
      ChildIsThere(src, from, name);
      ChildFree(before, src, from, to, done, name);
      OneMoreChild(before, src, from, to, done, name);
      var child := from + [name];
      if src[child] == Dir {
        ChildBelow(src, from, name);
        ok := CopyDirTree(child, to + [name]);
        return;
      }
      LeafCopied(dst, src, child, to + [name]);
      if !src[child].File? { return true; }
      ghost var part := dst;
      ok := CopyFileVerified(child, to + [name], |src[child].data|);
      if dst != part { UpdateOutside(part, dst, to + [name]); }
    }

    /** `copyDirTree`. */
    method CopyDirTree(from: Path, to: Path) returns (ok: bool)
      requires Valid() && SourceUntouched() && from in src && src[from] == Dir
      requires Free(dst, to)
      modifies this
      ensures Valid() && SourceUntouched() && src == old(src) && old(seen) <= seen
      ensures ok ==> Makeable(old(dst), to) && dst == Placed(old(dst), to, Kept(Subtree(src, from)))
      ensures SameOutside(dst, old(dst), to)
      ensures steady && Makeable(old(dst), to) ==> ok
      decreases |StrictlyBelow(src, from)|, 1
    {
      ghost var before := dst;
      if !steady { if * { return false; } }
      if to == [] || to[..|to| - 1] !in dst || dst[to[..|to| - 1]] != Dir { return false; }
      MakingKeepsRooted(dst, to, Dir);
      Write(Target, dst[to := Dir]);
      NoChildYet(before, src, from, to);
      if !steady { if * { return false; } }
      var pending := Children(src, from);
      ghost var done := {};
      while pending != {}
        invariant Valid() && SourceUntouched() && src == old(src) && old(seen) <= seen
        invariant pending <= Children(src, from) && done == Children(src, from) - pending
        invariant dst == Part(before, src, from, to, done)
      {
        var name :| name in pending;
        ghost var part := dst;
        var copied := CopyEntry(from, to, name, before, done);
        PlacedOutside(before, to, Kept(Only(Subtree(src, from), done)));
        SameOutsideOfMore(dst, part, to, to + [name]);
        SameOutsideTrans(dst, part, before, to);
        if !copied { return false; }
        pending := pending - {name};
        done := done + {name};
      }
      assert done == Children(src, from);
      OnlyChildren(src, from);
      PlacedOutside(before, to, Kept(Only(Subtree(src, from), done)));
      return true;
    }

    /** `RemoveAll`: children before their directory, in any such order, stopping anywhere. */
    method RemoveAll(side: Side, p: Path) returns (ok: bool)
      requires Valid() && p != []
      modifies this
      ensures Valid() && (if side == Source then dst == old(dst) else src == old(src)) && old(seen) <= seen
      ensures RemovedPartly(old(On(side)), On(side), p)
      ensures ok ==> On(side) == Without(old(On(side)), p)
      ensures forall st :: st in seen ==> st in old(seen) || (if side == Source then st.1 == dst else st.0 == src)
      ensures steady ==> ok
    {
      ghost var before := On(side);
      while exists q :: q in On(side) && p <= q
        invariant Valid() && (if side == Source then dst == old(dst) else src == old(src)) && old(seen) <= seen
        invariant RemovedPartly(before, On(side), p)
        invariant forall st :: st in seen ==> st in old(seen) || (if side == Source then st.1 == dst else st.0 == src)
        decreases |On(side)|
      {
        if !steady { if * { return false; } }
        var gone := PickRemovable(On(side), p);
        Write(side, On(side) - {gone});
      }
      assert Free(On(side), p);
      RemovedWholly(before, On(side), p);
      return true;
    }

    /** `Remove`: takes an entry that holds nothing. */
    method Remove(side: Side, p: Path) returns (ok: bool)
      requires Valid() && p != []
      modifies this
      ensures Valid() && (if side == Source then dst == old(dst) else src == old(src)) && old(seen) <= seen
      ensures On(side) == if ok then old(On(side)) - {p} else old(On(side))
      ensures ok ==> p in old(On(side))
      ensures seen <= old(seen) + {(src, dst)}
      ensures steady && p in old(On(side)) && StrictlyBelow(old(On(side)), p) == {} ==> ok
    {
      if !steady { if * { return false; } }
      HoldsNothingIff(On(side), p);
      if p !in On(side) || exists q :: q in On(side) && p <= q && q != p { return false; }
      LeafRemovalKeepsRooted(On(side), p);
      Write(side, On(side) - {p});
      return true;
    }

    /** The last step of `CopyAcrossMounts`: the copy, and the clean-up when it fails. */
    method CopyDirOrCleanUp(source: Path, destPath: Path) returns (outcome: CopyOutcome)
      requires Valid() && SourceUntouched() && source in src && src[source] == Dir
      requires destPath != [] && Free(dst, destPath)
      modifies this
      ensures Valid() && SourceUntouched() && src == old(src) && old(seen) <= seen
      ensures outcome in {Copied(destPath), CopyFailed(true), CopyFailed(false)}
      ensures outcome.Copied? ==> CopyMade(old(dst), dst, src, source, destPath)
      ensures outcome == CopyFailed(true) ==> dst == old(dst)
      ensures SameOutside(dst, old(dst), destPath)
      ensures steady && Makeable(old(dst), destPath) ==> outcome.Copied?
    {
      ghost var before := dst;
      var ok := CopyDirTree(source, destPath);
      if ok { return Copied(destPath); }
      ghost var partial := dst;
      var cleaned := RemoveAll(Target, destPath);
      SameOutsidePartly(before, partial, dst, destPath);
      if cleaned { RemovedBack(before, partial, destPath); }
      return CopyFailed(cleaned);
    }

    method CopyFileOrCleanUp(source: Path, destPath: Path, size: nat) returns (outcome: CopyOutcome)
      requires Valid() && SourceUntouched() && source in src
      requires src[source] == Special(size) || (src[source].File? && size == |src[source].data|)
      requires destPath != [] && Free(dst, destPath)
      modifies this
      ensures Valid() && SourceUntouched() && src == old(src) && old(seen) <= seen
      ensures outcome in {Copied(destPath), CopyFailed(true), CopyFailed(false)}
      ensures outcome.Copied? ==> CopyMade(old(dst), dst, src, source, destPath)
      ensures outcome == CopyFailed(true) ==> dst == old(dst)
      ensures SameOutside(dst, old(dst), destPath)
      ensures steady && Makeable(old(dst), destPath) && src[source].File? ==> outcome.Copied?
    {
      ghost var before := dst;
      LeafCopied(dst, src, source, destPath);
      var ok := CopyFileVerified(source, destPath, size);
      if dst != before { UpdateOutside(before, dst, destPath); }
      if ok { return Copied(destPath); }
      ghost var partial := dst;
      var cleaned := Remove(Target, destPath);
      if cleaned { assert dst == before; }
      return CopyFailed(cleaned);
    }

    /** The copy of whatever is at `source`. */
    method CopyNode(source: Path, destPath: Path) returns (outcome: CopyOutcome)
      requires Valid() && SourceUntouched() && source in src && !src[source].Symlink?
      requires destPath != [] && Free(dst, destPath)
      modifies this
      ensures Valid() && SourceUntouched() && src == old(src) && old(seen) <= seen
      ensures outcome in {Copied(destPath), CopyFailed(true), CopyFailed(false)}
      ensures outcome.Copied? ==> CopyMade(old(dst), dst, src, source, destPath)
      ensures outcome == CopyFailed(true) ==> dst == old(dst)
      ensures SameOutside(dst, old(dst), destPath)
      ensures steady && Makeable(old(dst), destPath) && !src[source].Special? ==> outcome.Copied?
    {
      match src[source]
      case Dir => outcome := CopyDirOrCleanUp(source, destPath);
      case File(data) => outcome := CopyFileOrCleanUp(source, destPath, |data|);
      case Special(size) => outcome := CopyFileOrCleanUp(source, destPath, size);
    }

    /** `CopyAcrossMounts`. */
    method CopyAcrossMounts(from: string, toDir: string) returns (outcome: CopyOutcome)
      requires Valid() && SourceUntouched()
      modifies this
      ensures Valid() && SourceUntouched() && src == old(src) && old(seen) <= seen
      ensures outcome.Copied? ==> Named(from).Some? && targetWritable
      ensures outcome.Copied? ==>
        && outcome.path == Destination(Named(from).value, toDir)
        && Paths.Join(outcome.path) == JoinedTarget(from, toDir)
        && CopyMade(old(dst), dst, src, Named(from).value, outcome.path)
      ensures Named(from).Some? ==> SameOutside(dst, old(dst), Destination(Named(from).value, toDir))
      ensures outcome == Rejected || outcome == CopyFailed(true) ==> dst == old(dst)
      ensures outcome == CopyFailed(false) ==>
        Named(from).Some? && SameOutside(dst, old(dst), Destination(Named(from).value, toDir))
      ensures outcome.Copied? ==> CanCopy(src, old(dst), Named(from).value, DirectoryNamed(toDir))
      ensures steady && targetWritable && Named(from).Some? ==>
        var source := Named(from).value;
        CanCopy(src, old(dst), source, DirectoryNamed(toDir)) && !src[source].Special? ==> outcome.Copied?
    {
      var named := Named(from);
      if named == None { return Rejected; }
      var source := named.value;
      var destDir := DirectoryNamed(toDir);
      var destPath := Destination(source, toDir);
      DestinationIsPathJoin(from, toDir);
      if !steady { if * { return Rejected; } }
      if !targetWritable { return Rejected; }
      var ok := RejectSymlinkPath(src, source, steady);
      if !ok { return Rejected; }
      ok := RejectSymlinkPath(dst, destDir, steady);
      if !ok { return Rejected; }
      if !steady { if * { return Rejected; } }
      assert destPath[..|destPath| - 1] == destDir;
      AbsentMeans(dst, destPath);
      if Makeable(dst, destPath) { MakeableIsAbsent(dst, destPath); }
      if Lstat(dst, destPath) != NotExist { return Rejected; }
      if !steady { if * { return Rejected; } }
      AbsentIsFree(dst, destPath);
      outcome := CopyNode(source, destPath);
    }

    /** `Delete`, on the source. */
    method Delete(relativePath: string) returns (ok: bool)
      requires Valid()
      modifies this
      ensures Valid() && dst == old(dst) && old(seen) <= seen
      ensures ok ==> Named(relativePath).Some? && src == Without(old(src), Named(relativePath).value)
      ensures if Named(relativePath).Some? then RemovedPartly(old(src), src, Named(relativePath).value) else src == old(src)
      ensures forall st :: st in seen ==> st in old(seen) || st.1 == dst
      ensures ok ==> sourceWritable
      ensures steady && sourceWritable && Named(relativePath).Some? ==>
        var p := Named(relativePath).value;
        (ok <==> p in old(src) && !old(src)[p].Symlink?)
    {
      var named := Named(relativePath);
      if named == None { return false; }
      var p := named.value;
      if !steady { if * { return false; } }
      if !sourceWritable { return false; }
      var found := RejectSymlinkPath(src, p, steady);
      if !found { return false; }
      if !steady { if * { return false; } }
      if src[p] == Dir {
        ok := RemoveAll(Source, p);
      } else {
        ghost var before := src;
        LeafHoldsNothing(src, p);
        ok := Remove(Source, p);
        if ok { LeafRemoved(before, p); }
      }
    }

    /** `MoveAcrossMounts`. At no moment is a regular file whole on neither side. */
    method MoveAcrossMounts(from: string, toDir: string) returns (outcome: MoveOutcome)
      requires Valid()
      modifies this
      ensures Valid() && (old(src), old(dst)) in seen && (src, dst) in seen
      ensures outcome.Moved? || outcome.Incomplete? ==>
        && Named(from).Some? && outcome.path == Destination(Named(from).value, toDir)
        && Paths.Join(outcome.path) == JoinedTarget(from, toDir)
        && CopyMade(old(dst), dst, old(src), Named(from).value, outcome.path)
        && RemovedPartly(old(src), src, Named(from).value)
      ensures outcome.Moved? ==> src == Without(old(src), Named(from).value)
      ensures outcome.Moved? ==>
        (NodesWhole((src, dst), old(src), Named(from).value, outcome.path) <==> AllCarried(old(src), Named(from).value))
      ensures outcome.NotMoved? ==> src == old(src)
      ensures Named(from).Some? ==> SameOutside(dst, old(dst), Destination(Named(from).value, toDir))
      ensures outcome == NotMoved(Rejected) || outcome == NotMoved(CopyFailed(true)) ==> dst == old(dst)
      ensures Named(from).Some? ==>
        forall st :: st in seen ==>
          FilesWhole(st, old(src), Named(from).value, Destination(Named(from).value, toDir))
      ensures outcome.Moved? || outcome.Incomplete? ==> sourceWritable && targetWritable
      ensures steady ==> !outcome.Incomplete?
      ensures steady && sourceWritable && targetWritable && Named(from).Some? ==>
        var source := Named(from).value;
        CanCopy(old(src), old(dst), source, DirectoryNamed(toDir)) && !old(src)[source].Special? ==> outcome.Moved?
    {
      seen := {(src, dst)};
      ghost var original, before := src, dst;
      if !steady { if * { return NotMoved(Rejected); } }
      if !sourceWritable { return NotMoved(Rejected); }
      var copied := CopyAcrossMounts(from, toDir);
      if !copied.Copied? { return NotMoved(copied); }
      ghost var copying := seen;
      var deleted := Delete(from);
      forall st | st in seen ensures FilesWhole(st, original, Named(from).value, copied.path)
      {
        if st !in copying {
          CopyKeepsFilesWhole(st, before, original, Named(from).value, copied.path);
        }
      }
      if deleted { MoveKeepsNodesIff(before, dst, original, Named(from).value, copied.path); }
      return if deleted then Moved(copied.path) else Incomplete(copied.path);
    }
  }
}
