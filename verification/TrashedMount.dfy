/** The trash operations as the service performs them, call by call on the mount's tree. Any call
    may fail, and a removal may stop half way. */
module TrashedMount {
  import opened FileTree
  import opened Trash
  import Paths

  /** `validTrashID`. */
  predicate ValidTrashId(id: string)
  {
    id != "" && id[0] != '.' && '/' !in id && '\\' !in id
  }

  /** `path.Ext` of a single name: from its last dot on. */
  function Ext(name: string): (ext: string)
    ensures |ext| <= |name| && name[|name| - |ext|..] == ext
    ensures ext == "" <==> '.' !in name
    ensures ext != "" ==> ext[0] == '.' && '.' !in ext[1..]
  {
    if '.' !in name then ""
    else if name[|name| - 1] == '.' then "."
    else Ext(name[..|name| - 1]) + [name[|name| - 1]]
  }

  /** `conflictSafePath`; `stamp` is the clock's second in decimal. */
  function ConflictSafePath(original: Path, stamp: string): (p: Path)
    requires original != []
    ensures p != original && |p| == |original|
    ensures p[..|p| - 1] == original[..|original| - 1]
  {
    var name := original[|original| - 1];
    var safe := name[..|name| - |Ext(name)|] + ".restored-" + stamp + Ext(name);
    assert |safe| > |name|;
    original[..|original| - 1] + [safe]
  }

  /** An id leads to a directory directly in the trash. */
  lemma ValidTrashIdIsName(id: string)
    ensures ValidTrashId(id) ==> id != "" && id != "." && id != ".." && '/' !in id
    ensures id != "" && (forall c :: c in id ==> c != '.' && c != '/' && c != '\\') ==> ValidTrashId(id)
  {
    if id != "" { assert id[0] in id; }
  }

  /** The name for a conflict is the old one with the time put in before its extension, which it
      keeps, so names for different times differ. */
  lemma ConflictNameMeans(original: Path, stamp: string, other: string)
    requires original != []
    ensures var name, safe := original[|original| - 1], ConflictSafePath(original, stamp)[|original| - 1];
            && safe == name[..|name| - |Ext(name)|] + ".restored-" + stamp + name[|name| - |Ext(name)|..]
            && (Ext(name) != "" ==> Ext(safe) == Ext(name))
            && (stamp != other ==> ConflictSafePath(original, other) != ConflictSafePath(original, stamp))
  {
    var name := original[|original| - 1];
    var stem, ext := name[..|name| - |Ext(name)|], Ext(name);
    var safe := stem + ".restored-" + stamp + ext;
    assert ConflictSafePath(original, stamp)[|original| - 1] == safe;
    assert ConflictSafePath(original, other)[|original| - 1] == stem + ".restored-" + other + ext;
    if ext != "" {
      LastDot(stem + ".restored-" + stamp, ext);
    }
    if stamp != other && stem + ".restored-" + other + ext == safe {
      SameMiddle(stem + ".restored-", stamp, other, ext);
    }
  }

  lemma SameMiddle(a: string, x: string, y: string, b: string)
    ensures a + x + b == a + y + b ==> x == y
  {
    if a + x + b == a + y + b {
      assert |x| == |y|;
      assert (a + x + b)[|a|..|a| + |x|] == x && (a + y + b)[|a|..|a| + |y|] == y;
    }
  }

  lemma {:induction false} LastDot(front: string, ext: string)
    requires ext != "" && ext[0] == '.' && '.' !in ext[1..]
    ensures Ext(front + ext) == ext
    decreases |ext|
  {
    var name := front + ext;
    assert name[|front|] == '.' && '.' in name;
    if |ext| > 1 {
      var shorter := ext[..|ext| - 1];
      assert name[..|name| - 1] == front + shorter;
      assert name[|name| - 1] == ext[|ext| - 1] && ext[|ext| - 1] in ext[1..];
      assert shorter[1..] == ext[1..][..|ext| - 2];
      LastDot(front, shorter);
      assert shorter + [ext[|ext| - 1]] == ext;
    } else {
      assert ext == ".";
    }
  }

  datatype Made = Created | AlreadyThere | NotMade
  /** After a deletion whose record could not be written: `Undone` when the object was moved back,
      `Stranded` when it was not; `wiped` tells whether the removal that follows got to its end. */
  datatype DeleteOutcome = Trashed | Refused | Undone | Stranded(wiped: bool)
  datatype RestoreOutcome = RestoredTo(target: Path) | NotRestored

  /** Nothing changed except that directories were made. */
  ghost predicate OnlyDirsAdded(before: Tree, after: Tree)
  {
    forall q :: (q in before ==> q in after && after[q] == before[q]) && (q in after && q !in before ==> after[q] == Dir)
  }

  /** Whatever exists on the way to `p` is a directory. */
  predicate OpenWay(t: Tree, p: Path)
  {
    forall k :: 0 <= k < |p| && p[..k] in t ==> t[p[..k]] == Dir
  }

  lemma OpenWayUp(t: Tree, p: Path)
    requires OpenWay(t, p) && p != []
    ensures OpenWay(t, p[..|p| - 1])
  {
    var up := p[..|p| - 1];
    forall k | 0 <= k < |up| && up[..k] in t ensures t[up[..k]] == Dir
    {
      assert up[..k] == p[..k];
    }
  }

  /** Once the item's directory is made nothing stands in the way of moving the object into it. */
  lemma DeletionIsAllowed(before: Tree, p: Path, id: string)
    requires Rooted(before) && VisiblePath(p) && p in before && TrashRoot(id) !in before
    ensures Renameable(WithDirs(before, TrashRoot(id)), p, ObjectAt(id, p[|p| - 1]))
  {
    var root, place := TrashRoot(id), ObjectAt(id, p[|p| - 1]);
    assert place[..|place| - 1] == root && place[0] == root[0];
    WithDirsAt(before, root, root);
    WithDirsAt(before, root, p);
    WithDirsAt(before, root, place);
    if root in WithDirs(before, root) && place in before { PrefixPresent(before, root, place); }
  }

  /** The place of its record is free, or taken by the object itself. */
  lemma RecordPlace(before: Tree, p: Path, id: string)
    requires Rooted(before) && VisiblePath(p) && p in before && TrashRoot(id) !in before
    ensures var moved := Moved(before, p, id);
            if p[|p| - 1] == META then MetaAt(id) in moved && moved[MetaAt(id)] == before[p] else Makeable(moved, MetaAt(id))
  {
    var root, place, made := TrashRoot(id), ObjectAt(id, p[|p| - 1]), WithDirs(before, TrashRoot(id));
    var meta := MetaAt(id);
    assert meta[..|meta| - 1] == root && meta[0] == root[0] == place[0];
    WithDirsAt(before, root, root);
    WithDirsAt(before, root, p);
    WithDirsAt(before, root, meta);
    if meta in before { PrefixPresent(before, root, meta); }
    RenamedAt(made, p, place, meta);
    RenamedAt(made, p, place, root);
    if p[|p| - 1] == META {
      assert meta == place && meta[|place|..] == [] && p + [] == p;
    } else {
      assert place[3] != meta[3];
    }
  }

  /** What `RestoreTrash` asks of the tree. */
  predicate CanBringBack(t: Tree, id: string, item: Meta, stamp: string)
    requires item.original != []
  {
    var target := if item.original in t then ConflictSafePath(item.original, stamp) else item.original;
    && Lstat(t, item.original) != Failed && OpenWay(t, target)
    && Renameable(WithDirs(t, target[..|target| - 1]), ObjectAt(id, item.name), target)
  }

  /** What `SoftDelete` asks of the tree. */
  predicate CanDelete(t: Tree, p: Path, id: string)
  {
    p in t && (t[p].Dir? || t[p].File?) && TrashRoot(id) !in t && OpenWay(t, TrashRoot(id))
  }

  /** What `moveWithinMount` asks of the tree. */
  predicate CanMove(t: Tree, from: Path, to: Path)
    requires to != []
  {
    && from in t && !t[from].Symlink?
    && to !in t && to[..|to| - 1] in t && t[to[..|to| - 1]] == Dir && !(from <= to)
  }

  class Mount {
    const managed: bool
    const writable: bool
    /** No call to the file system fails but for what stands in the tree. */
    const steady: bool
    /** The JSON codec of the records. */
    const encode: Meta -> Bytes
    const decode: Bytes -> Option<Meta>
    var tree: Tree

    ghost predicate Valid()
      reads this
    {
      Rooted(tree) && forall m :: decode(encode(m)) == Some(m)
    }

    constructor (tree: Tree, managed: bool, writable: bool, steady: bool, encode: Meta -> Bytes, decode: Bytes -> Option<Meta>)
      requires Rooted(tree) && forall m :: decode(encode(m)) == Some(m)
      ensures Valid() && this.tree == tree && this.encode == encode && this.decode == decode
      ensures this.managed == managed && this.writable == writable && this.steady == steady
    {
      this.tree, this.encode, this.decode := tree, encode, decode;
      this.managed, this.writable, this.steady := managed, writable, steady;
    }

    /** `readTrashItem`. */
    function Record(id: string): Option<Meta>
      reads this
    {
      if MetaAt(id) in tree && tree[MetaAt(id)].File? then decode(tree[MetaAt(id)].data) else None
    }

    method Mkdir(p: Path) returns (made: Made)
      requires Valid() && p != []
      modifies this
      ensures Valid()
      ensures made == Created ==> Makeable(old(tree), p) && tree == old(tree)[p := Dir]
      ensures made == AlreadyThere ==> p in tree && tree == old(tree)
      ensures made == NotMade ==> tree == old(tree)
      ensures steady && Makeable(old(tree), p) ==> made == Created
      ensures steady && p in old(tree) ==> made == AlreadyThere
    {
      if !steady { if * { return NotMade; } }
      if p in tree { return AlreadyThere; }
      if p[..|p| - 1] !in tree || tree[p[..|p| - 1]] != Dir { return NotMade; }
      MakingKeepsRooted(tree, p, Dir);
      tree := tree[p := Dir];
      return Created;
    }

    /** `mkdirAllRoot`, and `ensureReservedDirs`: what exists already is no error. */
    method MkdirAll(p: Path) returns (ok: bool, ghost made: nat)
      requires Valid()
      modifies this
      ensures Valid() && made <= |p| && (ok ==> made == |p|)
      ensures tree == WithDirs(old(tree), p[..made])
      ensures steady && OpenWay(old(tree), p) ==> ok
    {
      made := 0;
      WithDirsNothing(tree);
      assert p[..0] == [];
      var i := 0;
      while i < |p|
        invariant 0 <= i <= |p| && made == i && Valid()
        invariant tree == WithDirs(old(tree), p[..i])
      {
        assert p[..i + 1][..i] == p[..i];
        WithDirsAt(old(tree), p[..i], p[..i]);
        var result := Mkdir(p[..i + 1]);
        if result == NotMade { return false, i; }
        WithDirsStep(old(tree), p, i);
        i := i + 1;
        made := i;
      }
      return true, i;
    }

    /** `faulted` tells an error that the tree does not account for. */
    method Rename(from: Path, to: Path) returns (ok: bool, ghost faulted: bool)
      requires Valid()
      modifies this
      ensures Valid()
      ensures ok ==> Renameable(old(tree), from, to) && tree == Renamed(old(tree), from, to)
      ensures !ok ==> tree == old(tree) && (!faulted ==> !Renameable(old(tree), from, to))
      ensures steady ==> !faulted
    {
      if !steady { if * { return false, true; } }
      if !Renameable(tree, from, to) { return false, false; }
      RenameableApart(tree, from, to);
      RenamingKeepsRooted(tree, from, to);
      tree := Renamed(tree, from, to);
      return true, false;
    }

    method RemoveAll(p: Path) returns (ok: bool)
      requires Valid() && p != []
      modifies this
      ensures Valid() && RemovedPartly(old(tree), tree, p)
      ensures ok ==> Free(tree, p)
      ensures steady ==> ok
    {
      while exists q :: q in tree && p <= q
        invariant Valid() && RemovedPartly(old(tree), tree, p)
        decreases |tree|
      {
        if !steady { if * { return false; } }
        var gone := PickRemovable(tree, p);
        tree := tree - {gone};
      }
      return true;
    }

    /** `writeTrashMeta`: creates or truncates the file, then writes it. */
    method WriteRecord(p: Path, payload: Bytes) returns (ok: bool)
      requires Valid()
      modifies this
      ensures Valid()
      ensures ok ==> tree == old(tree)[p := File(payload)] && (p in old(tree) ==> old(tree)[p].File?)
      ensures !ok && tree != old(tree) ==>
        && p in tree && tree == old(tree)[p := tree[p]] && (p in old(tree) ==> old(tree)[p].File?)
        && tree[p].File? && tree[p].data <= payload
      ensures steady && (if p in old(tree) then old(tree)[p].File? else Makeable(old(tree), p)) ==> ok
    {
      if !steady { if * { return false; } }
      if p in tree {
        if !tree[p].File? { return false; }
        UpdatingFileKeepsRooted(tree, p, payload);
      } else {
        if p == [] || p[..|p| - 1] !in tree || tree[p[..|p| - 1]] != Dir { return false; }
        MakingKeepsRooted(tree, p, File(payload));
      }
      var written: int := *;
      if !steady && 0 <= written < |payload| {
        var part := payload[..written];
        if p in tree { UpdatingFileKeepsRooted(tree, p, part); } else { MakingKeepsRooted(tree, p, File(part)); }
        tree := tree[p := File(part)];
        return false;
      }
      tree := tree[p := File(payload)];
      if !steady { if * { return false; } }
      return true;
    }

    /** `moveWithinMount`, for renames and moves; an existing target is refused. */
    method MoveWithinMount(from: string, to: string) returns (ok: bool)
      requires Valid()
      modifies this
      ensures Valid() && (!ok ==> tree == old(tree))
      ensures ok ==>
        && writable && Named(from).Some? && Named(to).Some?
        && Named(from).value in old(tree) && Free(old(tree), Named(to).value)
        && Apart(Named(from).value, Named(to).value)
        && tree == Renamed(old(tree), Named(from).value, Named(to).value)
      ensures steady && writable && Named(from).Some? && Named(to).Some? ==>
        CanMove(old(tree), Named(from).value, Named(to).value) ==> ok
    {
      var source, target := Named(from), Named(to);
      if source == None || target == None { return false; }
      if !steady { if * { return false; } }
      if !writable { return false; }
      ok := RejectSymlinkPath(tree, source.value, steady);
      if !ok { return false; }
      ok := RejectSymlinkPath(tree, target.value[..|target.value| - 1], steady);
      if !ok { return false; }
      if target.value !in tree && Hangs(tree, target.value) { MakeableIsAbsent(tree, target.value); }
      if Lstat(tree, target.value) != NotExist { return false; }
      AbsentIsFree(tree, target.value);
      ghost var before := tree;
      ghost var faulted;
      ok, faulted := Rename(source.value, target.value);
      if ok { RenameableApart(before, source.value, target.value); }
    }

    /** Makes the directory for a new item. */
    method MakeItemDir(id: string) returns (ok: bool)
      requires Valid()
      modifies this
      ensures Valid() && AgreeBut(tree, old(tree), id)
      ensures ok ==> TrashRoot(id) !in old(tree) && tree == WithDirs(old(tree), TrashRoot(id))
      ensures steady && OpenWay(old(tree), TrashRoot(id)) && TrashRoot(id) !in old(tree) ==> ok
    {
      ghost var before, made := tree, 0;
      if OpenWay(tree, TrashRoot(id)) {
        assert TrashRoot(id)[..2] == TRASH;
        OpenWayUp(tree, TrashRoot(id));
      }
      ok, made := MkdirAll(TRASH);
      assert TRASH[..made] == TrashRoot(id)[..made];
      DirsAgree(before, id, made);
      if !ok { return false; }
      assert TRASH[..made] == TRASH && TrashRoot(id)[..2] == TRASH;
      WithDirsAt(before, TRASH, TRASH);
      WithDirsAt(before, TRASH, TrashRoot(id));
      var root := Mkdir(TrashRoot(id));
      if root != Created { return false; }
      assert TrashRoot(id)[..2] == TRASH[..2] && TrashRoot(id)[..3] == TrashRoot(id);
      WithDirsStep(before, TrashRoot(id), 2);
      WithDirsAt(before, TRASH, TrashRoot(id));
      DirsAgree(before, id, 3);
      return true;
    }

    /** Moves the object back after its record could not be written. Nothing in the tree stands in
        the way: it is left behind only if the call itself faults. */
    method RollBack(p: Path, id: string, ghost was: Tree) returns (outcome: DeleteOutcome, ghost faulted: bool)
      requires Valid() && Rooted(was) && VisiblePath(p) && p in was && MovedIn(was, p, id, tree)
      modifies this
      ensures Valid() && (outcome.Undone? || outcome.Stranded?)
      ensures outcome == Undone ==> AgreeBut(tree, was, id)
      ensures outcome.Stranded? ==> AgreeBut(tree, Without(was, p), id) && (outcome.wiped ==> Free(tree, TrashRoot(id)))
      ensures outcome.Stranded? ==> faulted
      ensures steady ==> outcome == Undone
    {
      ghost var stuck := tree;
      RollbackIsAllowed(was, p, id, tree);
      var ok;
      ok, faulted := Rename(ObjectAt(id, p[|p| - 1]), p);
      ghost var back := tree;
      var wiped := RemoveAll(TrashRoot(id));
      RemovalAgrees(back, tree, id);
      if !ok {
        StuckAgrees(was, p, id, stuck);
        AgreeTrans(tree, stuck, Without(was, p), id);
        return Stranded(wiped), faulted;
      }
      UndoneAgrees(was, p, id, stuck);
      AgreeTrans(tree, back, was, id);
      return Undone, faulted;
    }

    /** What the first half of `SoftDelete` made of the tree `before`, seen from where it ends. */
    ghost predicate Outcome(before: Tree, p: Path, id: string, outcome: DeleteOutcome)
      reads this
      requires VisiblePath(p) && p in before
    {
      var meta := Meta(id, p, p[|p| - 1]);
      match outcome
      case Refused => AgreeBut(tree, before, id)
      case Trashed => Next(before, Delete(p, id, encode(meta)), tree) && Record(id) == Some(meta)
      case Undone =>
        && p in tree && AgreeBut(tree, before[p := tree[p]], id)
        && (tree[p] == before[p] || (p[|p| - 1] == META && HalfWritten(before[p], tree[p], encode(meta))))
      case Stranded(wiped) => AgreeBut(tree, Without(before, p), id) && (wiped ==> !Survives(before, p, id, tree))
    }

    /** What users see after it, and what becomes of the other items in the trash. */
    ghost predicate Shows(before: Tree, p: Path, id: string, outcome: DeleteOutcome)
      reads this
      requires VisiblePath(p) && p in before
    {
      match outcome
      case Refused => LooksSame(tree, before, id)
      case Undone =>
        if p[|p| - 1] != META then LooksSame(tree, before, id)
        else p in tree && LooksSame(tree, before[p := tree[p]], id)
      case _ =>
        && Visible(tree) == Without(Visible(before), p)
        && forall other :: other != id ==> Item(tree, other) == Item(before, other)
    }

    lemma OutcomeShows(before: Tree, p: Path, id: string, outcome: DeleteOutcome)
      requires Rooted(before) && VisiblePath(p) && p in before && Outcome(before, p, id, outcome)
      ensures Shows(before, p, id, outcome)
    {
      match outcome
      case Refused => AgreeEffect(tree, before, id);
      case Trashed => SoftDeleteEffect(before, p, id, encode(Meta(id, p, p[|p| - 1])));
      case Undone =>
        AgreeEffect(tree, before[p := tree[p]], id);
        assert p[|p| - 1] != META ==> before[p := tree[p]] == before;
      case Stranded(_) =>
        AgreeEffect(tree, Without(before, p), id);
        VisibleWithout(before, p);
        ItemsWithout(before, p);
    }

    /** The end of `SoftDelete`: with the object in the trash, its record, or the way back. */
    method RecordOrRollBack(p: Path, id: string, ghost before: Tree) returns (outcome: DeleteOutcome)
      requires Valid() && Rooted(before) && VisiblePath(p) && p in before && TrashRoot(id) !in before
      requires before[p].Dir? || before[p].File?
      requires tree == Moved(before, p, id)
      modifies this
      ensures Valid() && Outcome(before, p, id, outcome)
      ensures steady ==> outcome == if p[|p| - 1] == META && before[p] == Dir then Undone else Trashed
      ensures outcome == Trashed ==> !(p[|p| - 1] == META && before[p] == Dir)
    {
      ghost var moved := tree;
      RecordPlace(before, p, id);
      var payload := encode(Meta(id, p, p[|p| - 1]));
      var ok := WriteRecord(MetaAt(id), payload);
      if ok { return Trashed; }
      ghost var was := FailedRecord(before, p, id, moved, tree, payload);
      ghost var faulted;
      outcome, faulted := RollBack(p, id, was);
      match outcome
      case Undone => assert SameAt(tree, was, p);
      case Stranded(wiped) =>
        SameWithout(before, p, was[p]);
        if wiped { StrandedIsLost(before, p, id, tree); }
      case _ =>
    }

    /** The second half of `SoftDelete`, once the directory for the item is there. */
    method MoveAndRecord(p: Path, id: string, ghost before: Tree) returns (outcome: DeleteOutcome)
      requires Valid() && Rooted(before) && VisiblePath(p) && p in before
      requires before[p].Dir? || before[p].File?
      requires TrashRoot(id) !in before && tree == WithDirs(before, TrashRoot(id)) && AgreeBut(tree, before, id)
      modifies this
      ensures Valid() && Outcome(before, p, id, outcome)
      ensures steady ==> outcome == if p[|p| - 1] == META && before[p] == Dir then Undone else Trashed
      ensures outcome == Trashed ==> !(p[|p| - 1] == META && before[p] == Dir)
    {
      ghost var made := tree;
      DeletionIsAllowed(before, p, id);
      var ok, _ := Rename(p, ObjectAt(id, p[|p| - 1]));
      if !ok {
        var _ := RemoveAll(TrashRoot(id));
        RemovalAgrees(made, tree, id);
        AgreeTrans(tree, made, before, id);
        return Refused;
      }
      outcome := RecordOrRollBack(p, id, before);
    }

    /** The part of `SoftDelete` that changes something. */
    method DeleteNode(p: Path, id: string) returns (outcome: DeleteOutcome)
      requires Valid() && VisiblePath(p) && p in tree && (tree[p].Dir? || tree[p].File?)
      modifies this
      ensures Valid()
      ensures outcome == Refused ==> AgreeBut(tree, old(tree), id) && LooksSame(tree, old(tree), id)
      ensures outcome != Refused ==>
        TrashRoot(id) !in old(tree) && Outcome(old(tree), p, id, outcome) && Shows(old(tree), p, id, outcome)
      ensures steady && CanDelete(old(tree), p, id) ==>
        outcome == if p[|p| - 1] == META && old(tree)[p] == Dir then Undone else Trashed
      ensures outcome == Trashed ==> !(p[|p| - 1] == META && old(tree)[p] == Dir)
    {
      ghost var before := tree;
      var ok := MakeItemDir(id);
      if !ok {
        AgreeEffect(tree, before, id);
        return Refused;
      }
      outcome := MoveAndRecord(p, id, before);
      OutcomeShows(before, p, id, outcome);
    }

    /** `SoftDelete`; `id` is drawn at random, and an id in use makes the operation fail. */
    method SoftDelete(relativePath: string, id: string) returns (outcome: DeleteOutcome)
      requires Valid()
      modifies this
      ensures Valid()
      ensures outcome == Refused ==> AgreeBut(tree, old(tree), id) && LooksSame(tree, old(tree), id)
      ensures outcome != Refused ==>
        && managed && writable && Named(relativePath).Some?
        && var p := Named(relativePath).value;
           && VisiblePath(p) && p in old(tree) && TrashRoot(id) !in old(tree)
           && (old(tree)[p].Dir? || old(tree)[p].File?)
           && Outcome(old(tree), p, id, outcome) && Shows(old(tree), p, id, outcome)
      ensures steady && managed && writable && Named(relativePath).Some? ==>
        var p := Named(relativePath).value;
        CanDelete(old(tree), p, id) ==> outcome == if p[|p| - 1] == META && old(tree)[p] == Dir then Undone else Trashed
      ensures outcome == Trashed ==>
        var p := Named(relativePath).value; !(p[|p| - 1] == META && old(tree)[p] == Dir)
    {
      if !managed || !writable { return Refused; }
      var named := Named(relativePath);
      if named == None { return Refused; }
      var p := named.value;
      NamedIsVisible(relativePath);
      if !steady { if * { return Refused; } }
      var ok := RejectSymlinkPath(tree, p, steady);
      if !ok { return Refused; }
      if !steady { if * { return Refused; } }
      if !tree[p].Dir? && !tree[p].File? { return Refused; }
      outcome := DeleteNode(p, id);
    }

    /** Under any name but the record's, what was to be deleted survives exactly when the object is
        not left behind by a rollback that fails and then wiped out. */
    lemma SurvivesUnlessStranded(before: Tree, p: Path, id: string, outcome: DeleteOutcome)
      requires VisiblePath(p) && p in before && p[|p| - 1] != META && Outcome(before, p, id, outcome)
      requires outcome.Stranded? ==> outcome.wiped
      ensures Survives(before, p, id, tree) <==> !outcome.Stranded?
    {
      match outcome
      case Refused => AgreedSurvives(before, p, id, tree);
      case Trashed => DeletingKeepsContent(before, p, id, encode(Meta(id, p, p[|p| - 1])));
      case Undone =>
        assert before[p := tree[p]] == before;
        AgreedSurvives(before, p, id, tree);
      case Stranded(wiped) =>
    }

    /** Where `RestoreTrash` puts an object that was deleted from `original`. */
    method ChooseTarget(original: Path, stamp: string) returns (target: Option<Path>)
      requires Valid() && original != []
      ensures target.Some? ==>
        target.value == if original in tree then ConflictSafePath(original, stamp) else original
      ensures target == None <==> Lstat(tree, original) == Failed
    {
      match Lstat(tree, original)
      case Found(_) => return Some(ConflictSafePath(original, stamp));
      case Failed => return None;
      case NotExist => return Some(original);
    }

    /** The second half of `RestoreTrash`: parents, rename, removal of the item's directory. */
    method MoveBack(id: string, name: string, target: Path) returns (ok: bool)
      requires Valid() && target != []
      modifies this
      ensures Valid()
      ensures !ok ==> OnlyDirsAdded(old(tree), tree)
      ensures ok ==>
        && Renameable(WithDirs(old(tree), target[..|target| - 1]), ObjectAt(id, name), target)
        && RemovedPartly(Restored(old(tree), id, name, target), tree, TrashRoot(id))
      ensures steady && OpenWay(old(tree), target) ==>
        (ok <==> Renameable(WithDirs(old(tree), target[..|target| - 1]), ObjectAt(id, name), target))
    {
      var parent := target[..|target| - 1];
      ghost var before, made := tree, 0;
      if OpenWay(tree, target) { OpenWayUp(tree, target); }
      ok, made := MkdirAll(parent);
      assert parent[..|parent|] == parent;
      assert OnlyDirsAdded(before, tree) by {
        forall q ensures (q in before ==> q in tree && tree[q] == before[q]) &&
                         (q in tree && q !in before ==> tree[q] == Dir)
        {
          WithDirsAt(before, parent[..made], q);
        }
      }
      if !ok { return false; }
      ghost var faulted;
      ok, faulted := Rename(ObjectAt(id, name), target);
      if !ok { return false; }
      var _ := RemoveAll(TrashRoot(id));
      return true;
    }

    /** The mount after `item`, kept under `id`, was brought back to `target`. */
    ghost predicate BroughtBack(before: Tree, id: string, item: Meta, stamp: string, target: Path)
      reads this
    {
      && item.original != [] && target != []
      && target == (if item.original in before then ConflictSafePath(item.original, stamp) else item.original)
      && Renameable(WithDirs(before, target[..|target| - 1]), ObjectAt(id, item.name), target)
      && RemovedPartly(Restored(before, id, item.name, target), tree, TrashRoot(id))
      && (VisiblePath(target) ==>
            (KeepsVisible(before, tree) <==>
               target !in before || before[target] == before[ObjectAt(id, item.name)]))
    }

    /** The half of `RestoreTrash` that follows the reading of the record. */
    method RestoreItem(id: string, item: Meta, stamp: string) returns (outcome: RestoreOutcome)
      requires Valid() && item.original != []
      modifies this
      ensures Valid()
      ensures outcome == NotRestored ==> OnlyDirsAdded(old(tree), tree)
      ensures outcome.RestoredTo? ==> BroughtBack(old(tree), id, item, stamp, outcome.target)
      ensures steady && CanBringBack(old(tree), id, item, stamp) ==> outcome.RestoredTo?
    {
      var chosen := ChooseTarget(item.original, stamp);
      if chosen == None { return NotRestored; }
      var target := chosen.value;
      ghost var before := tree;
      var ok := MoveBack(id, item.name, target);
      if !ok { return NotRestored; }
      if VisiblePath(target) {
        RestorationKeepsVisibleIff(before, id, item.name, target, tree);
      }
      return RestoredTo(target);
    }

    /** `RestoreTrash`. */
    method RestoreTrash(trashId: string, stamp: string) returns (outcome: RestoreOutcome)
      requires Valid()
      modifies this
      ensures Valid()
      ensures outcome == NotRestored ==> OnlyDirsAdded(old(tree), tree)
      ensures outcome.RestoredTo? ==>
        var id := Paths.TrimSpace(trashId);
        && ValidTrashId(id) && old(Record(id)).Some?
        && BroughtBack(old(tree), id, old(Record(id)).value, stamp, outcome.target)
      ensures outcome.RestoredTo? ==> managed && writable
      ensures steady && managed && writable ==>
        var id := Paths.TrimSpace(trashId);
        ValidTrashId(id) && old(Record(id)).Some? && old(Record(id)).value.original != [] ==>
          CanBringBack(old(tree), id, old(Record(id)).value, stamp) ==> outcome.RestoredTo?
    {
      if !managed || !writable { return NotRestored; }
      var id := Paths.TrimSpace(trashId);
      if !ValidTrashId(id) { return NotRestored; }
      if !steady { if * { return NotRestored; } }
      var record := Record(id);
      if record == None || record.value.original == [] { return NotRestored; }
      if !steady { if * { return NotRestored; } }
      outcome := RestoreItem(id, record.value, stamp);
    }
  }

  lemma ConflictNameIsTaken()
    ensures ConflictSafePath(KEPT.original, "5") == TAKEN
  {
    assert KEPT.original[|KEPT.original| - 1] == "a" && KEPT.original[..0] == [];
    assert "a"[..1] + ".restored-" + "5" + "" == "a.restored-5";
  }

  /** The record of `KEPT` stands in a tree where both its path and its conflict name are taken by
      something else. */
  ghost predicate BothTaken(t: Tree, record: Bytes)
  {
    && Rooted(t) && MetaAt("x") in t && t[MetaAt("x")] == File(record)
    && ["a"] in t && TAKEN in t && ObjectAt("x", "a") in t && t[TAKEN] != t[ObjectAt("x", "a")]
  }

  lemma ConflictHasBothTaken(record: Bytes)
    ensures BothTaken(Conflict(record), record)
  {
    ConflictIsRooted(record);
    assert |MetaAt("x")[3]| == 9 && |ObjectAt("x", "a")[3]| == 1;
  }

  /** Two restores of one path within a second: when the second one succeeds, what the first one
      brought back is overwritten. */
  method RestoreOverTaken(t: Tree, steady: bool, encode: Meta -> Bytes, decode: Bytes -> Option<Meta>)
    returns (mount: Mount, outcome: RestoreOutcome)
    requires BothTaken(t, encode(KEPT)) && forall m :: decode(encode(m)) == Some(m)
    ensures fresh(mount)
    ensures outcome.RestoredTo? ==> outcome.target == TAKEN && !KeepsVisible(t, mount.tree)
    ensures steady && t[TAKEN].File? && t[ObjectAt("x", "a")].File? ==> outcome.RestoredTo?
    ensures outcome == NotRestored ==> OnlyDirsAdded(t, mount.tree)
  {
    ConflictNameIsTaken();
    mount := new Mount(t, true, true, steady, encode, decode);
    assert !Paths.IsSpace("x"[0]);
    if t[TAKEN].File? && t[ObjectAt("x", "a")].File? {
      WithDirsNothing(t);
      assert TAKEN[..0] == [] && TAKEN[..|TAKEN| - 1] == [];
      assert CanBringBack(t, "x", KEPT, "5");
    }
    outcome := mount.RestoreTrash("x", "5");
  }
}
