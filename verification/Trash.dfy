/** The trash of a managed mount: `SoftDelete` moves an object to `.omnora/trash/<id>/` beside a
    record of where it came from, `RestoreTrash` moves it back. */
module Trash {
  import opened FileTree
  import Paths

  /** What the restore reads of a record. */
  datatype Meta = Meta(id: string, original: Path, name: string)

  const TRASH := [Paths.RESERVED_NAMESPACE, "trash"]
  const META := "meta.json"

  function TrashRoot(id: string): Path { TRASH + [id] }
  function MetaAt(id: string): Path { TRASH + [id, META] }
  function ObjectAt(id: string, name: string): Path { TRASH + [id, name] }

  predicate VisiblePath(p: Path)
  {
    p != [] && p[0] != Paths.RESERVED_NAMESPACE
  }

  /** What users see of the mount. */
  function Visible(t: Tree): Tree
  {
    Without(t, [Paths.RESERVED_NAMESPACE])
  }

  /** All that the trash keeps under an id. */
  function Item(t: Tree, id: string): Tree
  {
    Subtree(t, TrashRoot(id))
  }

  /** Paths that neither lie in an item nor lead to it. */
  predicate Clear(q: Path, id: string)
  {
    q == [] || !(TrashRoot(id) <= q || q <= TrashRoot(id))
  }

  /** The trees differ at most in one item and in the directories that lead to it. */
  ghost predicate AgreeBut(a: Tree, b: Tree, id: string)
  {
    forall q {:trigger SameAt(a, b, q)} :: Clear(q, id) ==> SameAt(a, b, q)
  }

  lemma AgreeTrans(a: Tree, b: Tree, c: Tree, id: string)
    requires AgreeBut(a, b, id) && AgreeBut(b, c, id)
    ensures AgreeBut(a, c, id)
  {
    forall q | Clear(q, id) ensures SameAt(a, c, q)
    {
      assert SameAt(a, b, q) && SameAt(b, c, q);
    }
  }

  /** Users see the same, and the other items are the same. */
  ghost predicate LooksSame(a: Tree, b: Tree, id: string)
  {
    Visible(a) == Visible(b) && forall other :: other != id ==> Item(a, other) == Item(b, other)
  }

  lemma AgreeEffect(a: Tree, b: Tree, id: string)
    requires AgreeBut(a, b, id)
    ensures LooksSame(a, b, id)
  {
    forall q | q == [] || VisiblePath(q) ensures SameAt(a, b, q)
    {
      assert Clear(q, id);
    }
    SameVisible(a, b);
    forall other | other != id ensures Item(a, other) == Item(b, other)
    {
      forall r ensures SameAt(a, b, TrashRoot(other) + r)
      {
        OtherIsClear(id, other, r);
      }
      SameItem(a, b, other);
    }
  }

  lemma OtherIsClear(id: string, other: string, r: Path)
    requires other != id
    ensures Clear(TrashRoot(other) + r, id)
  {
    assert (TrashRoot(other) + r)[2] == other && TrashRoot(id)[2] == id;
  }

  lemma DirsAgree(t: Tree, id: string, k: nat)
    requires k <= 3 && [] in t
    ensures AgreeBut(WithDirs(t, TrashRoot(id)[..k]), t, id)
  {
    forall q | Clear(q, id) ensures SameAt(WithDirs(t, TrashRoot(id)[..k]), t, q)
    {
      WithDirsAt(t, TrashRoot(id)[..k], q);
      LongerPrefix(q, TrashRoot(id)[..k], TrashRoot(id));
      assert TrashRoot(id)[..k] <= TrashRoot(id);
    }
  }

  lemma RemovalAgrees(t: Tree, after: Tree, id: string)
    requires RemovedPartly(t, after, TrashRoot(id))
    ensures AgreeBut(after, t, id)
  {
  }

  // ---- Deleting ----

  /** The tree right after the rename in `SoftDelete`. */
  function Moved(t: Tree, p: Path, id: string): Tree
    requires p != []
  {
    Renamed(WithDirs(t, TrashRoot(id)), p, ObjectAt(id, p[|p| - 1]))
  }

  function SoftDeleted(t: Tree, p: Path, id: string, payload: Bytes): Tree
    requires p != []
  {
    Moved(t, p, id)[MetaAt(id) := File(payload)]
  }

  lemma VisibleIsApart(p: Path, q: Path)
    requires VisiblePath(p) && q != [] && q[0] == Paths.RESERVED_NAMESPACE
    ensures Apart(p, q)
  {
  }

  lemma DeletedAtVisible(t: Tree, p: Path, id: string, payload: Bytes, q: Path)
    requires VisiblePath(p) && (q == [] ==> [] in t) && (q != [] ==> VisiblePath(q))
    ensures SameAt(SoftDeleted(t, p, id, payload), Without(t, p), q)
  {
    var place := ObjectAt(id, p[|p| - 1]);
    VisibleIsApart(p, place);
    RenamedAt(WithDirs(t, TrashRoot(id)), p, place, q);
    WithDirsAt(t, TrashRoot(id), q);
    assert q != [] ==> !(q <= TrashRoot(id));
  }

  lemma DeletedAtItem(t: Tree, p: Path, id: string, payload: Bytes, r: Path)
    requires VisiblePath(p)
    ensures ObjectAt(id, p[|p| - 1]) + r != MetaAt(id) ==>
              SameBelow(SoftDeleted(t, p, id, payload), ObjectAt(id, p[|p| - 1]), t, p, r)
  {
    var place := ObjectAt(id, p[|p| - 1]);
    VisibleIsApart(p, place);
    RenamedAt(WithDirs(t, TrashRoot(id)), p, place, place + r);
    WithDirsAt(t, TrashRoot(id), p + r);
    assert (place + r)[|place|..] == r;
    assert (p + r)[0] == p[0];
    assert !(p + r <= TrashRoot(id));
  }

  lemma DeletedAtOther(t: Tree, p: Path, id: string, payload: Bytes, other: string, r: Path)
    requires VisiblePath(p) && other != id
    ensures SameAt(SoftDeleted(t, p, id, payload), t, TrashRoot(other) + r)
  {
    var place := ObjectAt(id, p[|p| - 1]);
    var q := TrashRoot(other) + r;
    assert q[2] == other && place[2] == id && MetaAt(id)[2] == id && TrashRoot(id)[2] == id;
    VisibleIsApart(p, place);
    RenamedAt(WithDirs(t, TrashRoot(id)), p, place, q);
    WithDirsAt(t, TrashRoot(id), q);
    assert !(q <= TrashRoot(id)) && !(place <= q) && !(p <= q);
  }

  lemma ItemAt(t: Tree, id: string, r: Path)
    ensures r in Item(t, id) <==> TrashRoot(id) + r in t
    ensures r in Item(t, id) ==> Item(t, id)[r] == t[TrashRoot(id) + r]
  {
    SubtreeAt(t, TrashRoot(id), r);
  }

  /** Trees that agree on one item's paths hold the same item. */
  lemma SameItem(a: Tree, b: Tree, id: string)
    requires forall r :: SameAt(a, b, TrashRoot(id) + r)
    ensures Item(a, id) == Item(b, id)
  {
    forall r ensures SameAt(Item(a, id), Item(b, id), r)
    {
      ItemAt(a, id, r);
      ItemAt(b, id, r);
      assert SameAt(a, b, TrashRoot(id) + r);
    }
    SameEverywhere(Item(a, id), Item(b, id));
  }

  /** Trees that agree on all visible paths and on the root look the same to users. */
  lemma SameVisible(a: Tree, b: Tree)
    requires forall q :: (q == [] || VisiblePath(q)) ==> SameAt(a, b, q)
    ensures Visible(a) == Visible(b)
  {
    forall q ensures SameAt(Visible(a), Visible(b), q)
    {
      assert [Paths.RESERVED_NAMESPACE] <= q <==> q != [] && !VisiblePath(q);
      assert (q == [] || VisiblePath(q)) ==> SameAt(a, b, q);
    }
    SameEverywhere(Visible(a), Visible(b));
  }

  lemma VisibleWithout(t: Tree, p: Path)
    ensures Visible(Without(t, p)) == Without(Visible(t), p)
  {
  }

  lemma ItemsWithout(t: Tree, p: Path)
    requires VisiblePath(p)
    ensures forall id :: Item(Without(t, p), id) == Item(t, id)
  {
    forall id ensures Item(Without(t, p), id) == Item(t, id)
    {
      forall r ensures SameAt(Without(t, p), t, TrashRoot(id) + r)
      {
        assert (TrashRoot(id) + r)[0] != p[0];
      }
      SameItem(Without(t, p), t, id);
    }
  }

  /** The content kept is what was deleted, unless the record was written over it. */
  function Content(t: Tree, id: string, name: string): Tree
  {
    Subtree(t, ObjectAt(id, name))
  }

  lemma DeletingKeepsContent(t: Tree, p: Path, id: string, payload: Bytes)
    requires VisiblePath(p) && p[|p| - 1] != META
    ensures Content(SoftDeleted(t, p, id, payload), id, p[|p| - 1]) == Subtree(t, p)
  {
    var after := SoftDeleted(t, p, id, payload);
    var place := ObjectAt(id, p[|p| - 1]);
    forall r ensures SameBelow(after, place, t, p, r)
    {
      DeletedAtItem(t, p, id, payload, r);
      assert (place + r)[3] == place[3] != MetaAt(id)[3];
    }
    SameSubtrees(after, place, t, p);
  }

  /** `SoftDelete` takes exactly the object out of sight, keeps it, and leaves the other items alone. */
  lemma SoftDeleteEffect(t: Tree, p: Path, id: string, payload: Bytes)
    requires Rooted(t) && VisiblePath(p)
    ensures var after := SoftDeleted(t, p, id, payload);
            && Visible(after) == Without(Visible(t), p)
            && (forall other :: other != id ==> Item(after, other) == Item(t, other))
            && MetaAt(id) in after && after[MetaAt(id)] == File(payload)
  {
    var after := SoftDeleted(t, p, id, payload);
    forall q | q == [] || VisiblePath(q) ensures SameAt(after, Without(t, p), q)
    {
      DeletedAtVisible(t, p, id, payload, q);
    }
    SameVisible(after, Without(t, p));
    VisibleWithout(t, p);
    forall other | other != id ensures Item(after, other) == Item(t, other)
    {
      forall r ensures SameAt(after, t, TrashRoot(other) + r)
      {
        DeletedAtOther(t, p, id, payload, other, r);
      }
      SameItem(after, t, other);
    }
  }

  lemma OverwrittenContent(t: Tree, p: Path, id: string, payload: Bytes)
    requires Rooted(t) && VisiblePath(p) && p in t && t[p].File? && p[|p| - 1] == META
    ensures Content(SoftDeleted(t, p, id, payload), id, META) == map[[] := File(payload)]
  {
    var after := SoftDeleted(t, p, id, payload);
    var place := ObjectAt(id, META);
    var written := t[p := File(payload)];
    forall r ensures SameBelow(after, place, written, p, r)
    {
      DeletedAtItem(t, p, id, payload, r);
      assert r == [] ==> p + r == p && place + r == place;
      assert r != [] ==> |p + r| > |p| && |place + r| > |place|;
    }
    SameSubtrees(after, place, written, p);
    UpdatedLeaf(t, p, File(payload));
  }

  /** A regular file survives its deletion exactly when it is not called `meta.json`, or already
      holds the very bytes of its record. */
  lemma FileKeptIff(t: Tree, p: Path, id: string, payload: Bytes)
    requires Rooted(t) && VisiblePath(p) && p in t && t[p].File?
    ensures Content(SoftDeleted(t, p, id, payload), id, p[|p| - 1]) == Subtree(t, p) <==>
            p[|p| - 1] != META || t[p] == File(payload)
  {
    LeafSubtree(t, p);
    if p[|p| - 1] != META {
      DeletingKeepsContent(t, p, id, payload);
    } else {
      OverwrittenContent(t, p, id, payload);
      var was: Tree, now: Tree := map[[] := t[p]], map[[] := File(payload)];
      assert was[[]] == t[p] && now[[]] == File(payload);
    }
  }

  /** A user's own `meta.json` is lost. */
  lemma MetaJsonIsLost()
    ensures var t: Tree := map[[] := Dir, [META] := File([7])];
            Rooted(t) && Content(SoftDeleted(t, [META], "x", []), "x", META) != Subtree(t, [META])
  {
    var t: Tree := map[[] := Dir, [META] := File([7])];
    assert Hangs(t, [META]);
    FileKeptIff(t, [META], "x", []);
  }

  /** `after` is `t` once the object has been moved into the trash, whatever was then written in
      the place of the record. */
  ghost predicate MovedIn(t: Tree, p: Path, id: string, after: Tree)
    requires p != []
  {
    var moved := Moved(t, p, id);
    after == moved || (p[|p| - 1] != META && MetaAt(id) in after && after == moved[MetaAt(id) := after[MetaAt(id)]])
  }

  lemma MovedInBelow(t: Tree, p: Path, id: string, after: Tree, r: Path)
    requires VisiblePath(p) && MovedIn(t, p, id, after)
    ensures SameBelow(after, ObjectAt(id, p[|p| - 1]), t, p, r)
  {
    var place := ObjectAt(id, p[|p| - 1]);
    VisibleIsApart(p, place);
    RenamedAt(WithDirs(t, TrashRoot(id)), p, place, place + r);
    assert (place + r)[|place|..] == r && (place + r)[3] == place[3];
    WithDirsAt(t, TrashRoot(id), p + r);
    assert (p + r)[0] == p[0];
    assert !(p + r <= TrashRoot(id));
  }

  lemma MovedInElsewhere(t: Tree, p: Path, id: string, after: Tree, q: Path)
    requires [] in t && VisiblePath(p) && MovedIn(t, p, id, after) && Clear(q, id) && !(p <= q)
    ensures SameAt(after, t, q)
  {
    var place := ObjectAt(id, p[|p| - 1]);
    VisibleIsApart(p, place);
    RenamedAt(WithDirs(t, TrashRoot(id)), p, place, q);
    WithDirsAt(t, TrashRoot(id), q);
    assert TrashRoot(id) <= place && TrashRoot(id) <= MetaAt(id);
    LongerPrefix(TrashRoot(id), place, q);
  }

  /** What a failed write can make of a regular file that stands where the record goes: a part of
      the record's bytes. */
  predicate HalfWritten(was: Node, now: Node, payload: Bytes)
  {
    was.File? && now.File? && now.data <= payload
  }

  lemma RewrittenBelow(t: Tree, p: Path, id: string, n: Node, r: Path)
    requires VisiblePath(p) && p in t && p[|p| - 1] == META
    ensures SameAt(Moved(t[p := n], p, id), Moved(t, p, id)[MetaAt(id) := n], MetaAt(id) + r)
  {
    MovedInBelow(t, p, id, Moved(t, p, id), r);
    MovedInBelow(t[p := n], p, id, Moved(t[p := n], p, id), r);
    assert r == [] ==> p + r == p && MetaAt(id) + r == MetaAt(id);
    assert r != [] ==> |p + r| > |p| && |MetaAt(id) + r| > |MetaAt(id)|;
  }

  lemma RewrittenElsewhere(t: Tree, p: Path, id: string, n: Node, q: Path)
    requires VisiblePath(p) && p in t && p[|p| - 1] == META && !(MetaAt(id) <= q)
    ensures SameAt(Moved(t[p := n], p, id), Moved(t, p, id)[MetaAt(id) := n], q)
  {
    var written := t[p := n];
    VisibleIsApart(p, MetaAt(id));
    RenamedAt(WithDirs(written, TrashRoot(id)), p, MetaAt(id), q);
    RenamedAt(WithDirs(t, TrashRoot(id)), p, MetaAt(id), q);
    WithDirsAt(written, TrashRoot(id), q);
    WithDirsAt(t, TrashRoot(id), q);
  }

  /** An object that is a leaf, rewritten at `p` before the move or in the trash after it. */
  lemma RewrittenAfterMove(t: Tree, p: Path, id: string, n: Node)
    requires VisiblePath(p) && p in t && p[|p| - 1] == META
    ensures Moved(t[p := n], p, id) == Moved(t, p, id)[MetaAt(id) := n]
  {
    var before, after := Moved(t[p := n], p, id), Moved(t, p, id)[MetaAt(id) := n];
    forall q ensures SameAt(before, after, q)
    {
      if MetaAt(id) <= q {
        RewrittenBelow(t, p, id, n, q[|MetaAt(id)|..]);
        assert MetaAt(id) + q[|MetaAt(id)|..] == q;
      } else {
        RewrittenElsewhere(t, p, id, n, q);
      }
    }
    SameEverywhere(before, after);
  }

  /** A write that fails half way leaves the object alone, unless the object is the file that
      stands where the record goes: it is then as if that file had been overwritten before the
      move. */
  lemma FailedRecord(t: Tree, p: Path, id: string, moved: Tree, after: Tree, payload: Bytes) returns (was: Tree)
    requires Rooted(t) && VisiblePath(p) && p in t
    requires moved == Moved(t, p, id)
    requires after == moved ||
             (MetaAt(id) in after && after == moved[MetaAt(id) := after[MetaAt(id)]] &&
              after[MetaAt(id)].File? && after[MetaAt(id)].data <= payload &&
              (MetaAt(id) in moved ==> moved[MetaAt(id)].File?))
    ensures Rooted(was) && MovedIn(was, p, id, after) && p in was && was == t[p := was[p]]
    ensures was[p] == t[p] || (p[|p| - 1] == META && HalfWritten(t[p], was[p], payload))
  {
    MovedInBelow(t, p, id, moved, []);
    assert p + [] == p && ObjectAt(id, p[|p| - 1]) + [] == ObjectAt(id, p[|p| - 1]);
    if after == moved || p[|p| - 1] != META {
      was := t;
    } else {
      RewrittenAfterMove(t, p, id, after[MetaAt(id)]);
      UpdatingFileKeepsRooted(t, p, after[MetaAt(id)].data);
      was := t[p := after[MetaAt(id)]];
    }
  }

  lemma UndoneBelow(t: Tree, p: Path, id: string, after: Tree, r: Path)
    requires VisiblePath(p) && MovedIn(t, p, id, after)
    ensures SameAt(Renamed(after, ObjectAt(id, p[|p| - 1]), p), t, p + r)
  {
    var place := ObjectAt(id, p[|p| - 1]);
    VisibleIsApart(p, place);
    RenamedAt(after, place, p, p + r);
    assert (p + r)[|p|..] == r;
    MovedInBelow(t, p, id, after, r);
  }

  lemma UndoneElsewhere(t: Tree, p: Path, id: string, after: Tree, q: Path)
    requires [] in t && VisiblePath(p) && MovedIn(t, p, id, after) && Clear(q, id) && !(p <= q)
    ensures SameAt(Renamed(after, ObjectAt(id, p[|p| - 1]), p), t, q)
  {
    var place := ObjectAt(id, p[|p| - 1]);
    VisibleIsApart(p, place);
    RenamedAt(after, place, p, q);
    assert TrashRoot(id) <= place;
    LongerPrefix(TrashRoot(id), place, q);
    MovedInElsewhere(t, p, id, after, q);
  }

  lemma OldPlaceIsFree(t: Tree, p: Path, id: string, after: Tree)
    requires Rooted(t) && VisiblePath(p) && p in t && MovedIn(t, p, id, after)
    ensures p !in after && Hangs(after, p)
  {
    var up := p[..|p| - 1];
    VisibleIsApart(p, ObjectAt(id, p[|p| - 1]));
    assert Hangs(t, p) && up <= p;
    MovedInElsewhere(t, p, id, after, up);
    RenamedAt(WithDirs(t, TrashRoot(id)), p, ObjectAt(id, p[|p| - 1]), p);
    assert MetaAt(id)[0] != p[0];
  }

  /** As far as the tree goes, the object can always be moved back: its old place is free and the
      directory it was in is still there. */
  lemma RollbackIsAllowed(t: Tree, p: Path, id: string, after: Tree)
    requires Rooted(t) && VisiblePath(p) && p in t && MovedIn(t, p, id, after)
    ensures Renameable(after, ObjectAt(id, p[|p| - 1]), p)
  {
    var place := ObjectAt(id, p[|p| - 1]);
    OldPlaceIsFree(t, p, id, after);
    MovedInBelow(t, p, id, after, []);
    assert place + [] == place && p + [] == p;
    VisibleIsApart(p, place);
  }

  /** Left where it was moved to, the object is missing from view, and nothing else is. */
  lemma StuckAgrees(t: Tree, p: Path, id: string, after: Tree)
    requires [] in t && VisiblePath(p) && MovedIn(t, p, id, after)
    ensures AgreeBut(after, Without(t, p), id)
  {
    var place := ObjectAt(id, p[|p| - 1]);
    VisibleIsApart(p, place);
    forall q | Clear(q, id) ensures SameAt(after, Without(t, p), q)
    {
      if p <= q {
        RenamedAt(WithDirs(t, TrashRoot(id)), p, place, q);
        assert q[0] == p[0];
      } else {
        MovedInElsewhere(t, p, id, after, q);
      }
    }
  }

  /** Moving the object back after its record could not be written undoes the deletion. */
  lemma UndoneAgrees(t: Tree, p: Path, id: string, after: Tree)
    requires [] in t && VisiblePath(p) && MovedIn(t, p, id, after)
    ensures AgreeBut(Renamed(after, ObjectAt(id, p[|p| - 1]), p), t, id)
  {
    forall q | Clear(q, id) ensures SameAt(Renamed(after, ObjectAt(id, p[|p| - 1]), p), t, q)
    {
      if p <= q {
        UndoneBelow(t, p, id, after, q[|p|..]);
        assert p + q[|p|..] == q;
      } else {
        UndoneElsewhere(t, p, id, after, q);
      }
    }
  }

  /** The object is where it was, or the trash has it. */
  ghost predicate Survives(before: Tree, p: Path, id: string, after: Tree)
    requires p != []
  {
    Subtree(after, p) == Subtree(before, p) || Content(after, id, p[|p| - 1]) == Subtree(before, p)
  }

  /** When the object could not be moved back and the item's directory is then removed, it is
      gone for good. */
  lemma StrandedIsLost(before: Tree, p: Path, id: string, after: Tree)
    requires VisiblePath(p) && p in before
    requires AgreeBut(after, Without(before, p), id) && Free(after, TrashRoot(id))
    ensures !Survives(before, p, id, after)
  {
    SubtreeAt(before, p, []);
    SubtreeAt(after, p, []);
    SubtreeAt(after, ObjectAt(id, p[|p| - 1]), []);
    assert p + [] == p && ObjectAt(id, p[|p| - 1]) + [] == ObjectAt(id, p[|p| - 1]);
    assert SameAt(after, Without(before, p), p);
    assert TrashRoot(id) <= ObjectAt(id, p[|p| - 1]);
  }

  lemma SameWithout(t: Tree, p: Path, n: Node)
    ensures Without(t[p := n], p) == Without(t, p)
  {
  }

  lemma AgreedSurvives(before: Tree, p: Path, id: string, after: Tree)
    requires VisiblePath(p) && AgreeBut(after, before, id)
    ensures Survives(before, p, id, after)
  {
    forall r ensures SameBelow(after, p, before, p, r)
    {
      assert (p + r)[0] == p[0];
      assert SameAt(after, before, p + r);
    }
    SameSubtrees(after, p, before, p);
  }

  // ---- Restoring ----

  /** The tree right after the rename in `RestoreTrash`. */
  function Restored(t: Tree, id: string, name: string, target: Path): Tree
    requires target != []
  {
    Renamed(WithDirs(t, target[..|target| - 1]), ObjectAt(id, name), target)
  }

  lemma RestoredAtVisible(t: Tree, id: string, name: string, target: Path, q: Path)
    requires VisiblePath(target) && (q == [] || VisiblePath(q))
    ensures SameAt(Restored(t, id, name, target),
                   Placed(Without(WithDirs(t, target[..|target| - 1]), target), target, Content(t, id, name)), q)
  {
    var place := ObjectAt(id, name);
    var made := WithDirs(t, target[..|target| - 1]);
    VisibleIsApart(target, place);
    RenamedAt(made, place, target, q);
    PlacedAt(Without(made, target), target, Content(t, id, name), q);
    if target <= q {
      SubtreeAt(t, place, q[|target|..]);
      WithDirsAt(t, target[..|target| - 1], place + q[|target|..]);
      assert (place + q[|target|..])[0] == Paths.RESERVED_NAMESPACE;
      assert !(place + q[|target|..] <= target[..|target| - 1]);
    }
  }

  lemma RestoredAtOther(t: Tree, id: string, name: string, target: Path, other: string, r: Path)
    requires VisiblePath(target) && other != id
    ensures SameAt(Restored(t, id, name, target), t, TrashRoot(other) + r)
  {
    var place := ObjectAt(id, name);
    var q := TrashRoot(other) + r;
    assert q[0] == Paths.RESERVED_NAMESPACE && q[2] == other && place[2] == id;
    VisibleIsApart(target, place);
    RenamedAt(WithDirs(t, target[..|target| - 1]), place, target, q);
    WithDirsAt(t, target[..|target| - 1], q);
    assert !(q <= target[..|target| - 1]) && !(place <= q) && !(target <= q);
  }

  /** The restored object is at the target, exactly as it was kept; besides it only missing parent
      directories are new, and the other items are untouched. */
  lemma RestoreEffect(t: Tree, id: string, name: string, target: Path)
    requires VisiblePath(target)
    ensures var after := Restored(t, id, name, target);
            var made := WithDirs(t, target[..|target| - 1]);
            && Visible(after) == Visible(Placed(Without(made, target), target, Content(t, id, name)))
            && Subtree(after, target) == Content(t, id, name)
            && (forall other :: other != id ==> Item(after, other) == Item(t, other))
  {
    var after := Restored(t, id, name, target);
    var made := WithDirs(t, target[..|target| - 1]);
    var shown := Placed(Without(made, target), target, Content(t, id, name));
    forall q | q == [] || VisiblePath(q) ensures SameAt(after, shown, q)
    {
      RestoredAtVisible(t, id, name, target, q);
    }
    SameVisible(after, shown);
    CutPlaced(Without(made, target), target, Content(t, id, name));
    forall r ensures SameBelow(after, target, shown, target, r)
    {
      assert (target + r)[0] == target[0];
      RestoredAtVisible(t, id, name, target, target + r);
    }
    SameSubtrees(after, target, shown, target);
    forall other | other != id ensures Item(after, other) == Item(t, other)
    {
      forall r ensures SameAt(after, t, TrashRoot(other) + r)
      {
        RestoredAtOther(t, id, name, target, other, r);
      }
      SameItem(after, t, other);
    }
  }

  /** Nothing visible went missing or changed. */
  ghost predicate KeepsVisible(before: Tree, after: Tree)
  {
    forall q :: q in before && VisiblePath(q) ==> q in after && after[q] == before[q]
  }

  /** A restore leaves everything that users saw before in place exactly when nothing is at the
      target, or just what comes back. The original path is checked to be free; the name a
      conflict is resolved with is not. */
  lemma RestoreKeepsVisibleIff(t: Tree, id: string, name: string, target: Path)
    requires Rooted(t) && VisiblePath(target)
    requires Renameable(WithDirs(t, target[..|target| - 1]), ObjectAt(id, name), target)
    ensures KeepsVisible(t, Restored(t, id, name, target)) <==>
            target !in t || t[target] == t[ObjectAt(id, name)]
  {
    var place := ObjectAt(id, name);
    var made := WithDirs(t, target[..|target| - 1]);
    var after := Restored(t, id, name, target);
    VisibleIsApart(target, place);
    WithDirsAt(t, target[..|target| - 1], place);
    assert !(place <= target[..|target| - 1]);
    RenamedAt(made, place, target, target);
    assert target[|target|..] == [] && place + [] == place;
    if target !in t || t[target] == t[place] {
      forall q | q in t && VisiblePath(q) ensures q in after && after[q] == t[q]
      {
        VisibleIsApart(q, place);
        RenamedAt(made, place, target, q);
        WithDirsAt(t, target[..|target| - 1], q);
        if target <= q {
          PrefixPresent(t, target, q);
          WithDirsAt(t, target[..|target| - 1], target);
        }
      }
    }
  }

  /** So a directory that is restored never takes the place of anything but an empty directory, and
      nothing users saw is lost. */
  lemma RestoredDirectoryLosesNothing(t: Tree, id: string, name: string, target: Path)
    requires Rooted(t) && VisiblePath(target)
    requires Renameable(WithDirs(t, target[..|target| - 1]), ObjectAt(id, name), target)
    requires ObjectAt(id, name) in t && t[ObjectAt(id, name)] == Dir
    ensures KeepsVisible(t, Restored(t, id, name, target))
  {
    var parent := target[..|target| - 1];
    WithDirsAt(t, parent, ObjectAt(id, name));
    WithDirsAt(t, parent, target);
    RestoreKeepsVisibleIff(t, id, name, target);
  }

  /** So does the whole operation, whose clean-up stays within the trash. */
  lemma RestorationKeepsVisibleIff(t: Tree, id: string, name: string, target: Path, end: Tree)
    requires Rooted(t) && VisiblePath(target)
    requires Renameable(WithDirs(t, target[..|target| - 1]), ObjectAt(id, name), target)
    requires RemovedPartly(Restored(t, id, name, target), end, TrashRoot(id))
    ensures KeepsVisible(t, end) <==> target !in t || t[target] == t[ObjectAt(id, name)]
  {
    RestoreKeepsVisibleIff(t, id, name, target);
    forall q | VisiblePath(q) ensures SameAt(end, Restored(t, id, name, target), q)
    {
      assert q[0] != TrashRoot(id)[0];
    }
    forall q | q in t && VisiblePath(q)
      ensures q in end && end[q] == t[q] <==> q in Restored(t, id, name, target) && Restored(t, id, name, target)[q] == t[q]
    {
      assert SameAt(end, Restored(t, id, name, target), q);
    }
  }

  /** `a` was deleted twice: one copy has been restored under a new name because `a` was taken
      again, and the other is still in the trash with its record. */
  const TAKEN := ["a.restored-5"]
  const KEPT := Meta("x", ["a"], "a")
  function Conflict(record: Bytes): Tree
  {
    map[[] := Dir, ["a"] := File([1]), TAKEN := File([2]), [Paths.RESERVED_NAMESPACE] := Dir, TRASH := Dir,
        TrashRoot("x") := Dir, MetaAt("x") := File(record), ObjectAt("x", "a") := File([3])]
  }

  lemma ConflictIsRooted(record: Bytes)
    ensures Rooted(Conflict(record))
  {
    assert TRASH[..1] == [Paths.RESERVED_NAMESPACE] && TrashRoot("x")[..2] == TRASH;
    assert ObjectAt("x", "a")[..3] == TrashRoot("x") && MetaAt("x")[..3] == TrashRoot("x");
    assert TAKEN[..0] == [] && ["a"][..0] == [];
  }

  /** The second restore within a second can be carried out, and replaces what the first one
      brought back. */
  lemma ConflictNameCanBeTaken(record: Bytes)
    ensures Renameable(WithDirs(Conflict(record), TAKEN[..0]), ObjectAt("x", "a"), TAKEN)
    ensures !KeepsVisible(Conflict(record), Restored(Conflict(record), "x", "a", TAKEN))
  {
    ConflictIsRooted(record);
    WithDirsNothing(Conflict(record));
    assert TAKEN[..0] == [];
    RestoreKeepsVisibleIff(Conflict(record), "x", "a", TAKEN);
  }

  // ---- Runs ----

  lemma CleaningUp(t: Tree, after: Tree, id: string)
    requires RemovedPartly(t, after, TrashRoot(id))
    ensures Visible(after) == Visible(t)
    ensures forall p :: VisiblePath(p) ==> Subtree(after, p) == Subtree(t, p)
    ensures forall other :: other != id ==> Item(after, other) == Item(t, other)
  {
    SameVisible(after, t);
    forall p | VisiblePath(p) ensures Subtree(after, p) == Subtree(t, p)
    {
      forall r ensures SameBelow(after, p, t, p, r)
      {
        assert (p + r)[0] == p[0];
      }
      SameSubtrees(after, p, t, p);
    }
    forall other | other != id ensures Item(after, other) == Item(t, other)
    {
      forall r ensures SameAt(after, t, TrashRoot(other) + r)
      {
        assert (TrashRoot(other) + r)[2] == other && TrashRoot(id)[2] == id;
      }
      SameItem(after, t, other);
    }
  }

  datatype Event =
    | Delete(p: Path, id: string, payload: Bytes)
    | Restore(id: string, name: string, target: Path)
    | Purge(id: string)
    | Edit

  /** One completed operation on the mount; `Edit` is anything that stays out of the reserved
      directory. Removals in the trash may stop half way. */
  ghost predicate Next(a: Tree, e: Event, b: Tree)
  {
    && Rooted(a)
    && match e
       case Delete(p, id, payload) => VisiblePath(p) && b == SoftDeleted(a, p, id, payload)
       case Restore(id, name, target) => VisiblePath(target) && RemovedPartly(Restored(a, id, name, target), b, TrashRoot(id))
       case Purge(id) => RemovedPartly(a, b, TrashRoot(id))
       case Edit => Subtree(b, [Paths.RESERVED_NAMESPACE]) == Subtree(a, [Paths.RESERVED_NAMESPACE])
  }

  predicate Concerns(e: Event, id: string)
  {
    !e.Edit? && e.id == id
  }

  lemma EditLeavesItems(a: Tree, b: Tree, id: string)
    requires Subtree(b, [Paths.RESERVED_NAMESPACE]) == Subtree(a, [Paths.RESERVED_NAMESPACE])
    ensures Item(b, id) == Item(a, id)
  {
    forall r ensures SameAt(b, a, TrashRoot(id) + r)
    {
      var within := ["trash", id] + r;
      assert TrashRoot(id) + r == [Paths.RESERVED_NAMESPACE] + within;
      SubtreeAt(a, [Paths.RESERVED_NAMESPACE], within);
      SubtreeAt(b, [Paths.RESERVED_NAMESPACE], within);
    }
    SameItem(b, a, id);
  }

  lemma StepLeavesItem(a: Tree, e: Event, b: Tree, id: string)
    requires Next(a, e, b) && !Concerns(e, id)
    ensures Item(b, id) == Item(a, id)
  {
    match e
    case Delete(p, other, payload) => SoftDeleteEffect(a, p, other, payload);
    case Restore(other, name, target) =>
      RestoreEffect(a, other, name, target);
      CleaningUp(Restored(a, other, name, target), b, other);
    case Purge(other) => CleaningUp(a, b, other);
    case Edit => EditLeavesItems(a, b, id);
  }

  ghost predicate Run(states: seq<Tree>, events: seq<Event>)
  {
    |states| == |events| + 1 && forall i :: 0 <= i < |events| ==> Next(states[i], events[i], states[i + 1])
  }

  /** Whatever else happens, an item that is not itself restored or purged stays as it is. */
  lemma {:induction false} ItemsStay(states: seq<Tree>, events: seq<Event>, id: string)
    requires Run(states, events) && forall e :: e in events ==> !Concerns(e, id)
    ensures Item(states[|events|], id) == Item(states[0], id)
    decreases |events|
  {
    if events != [] {
      var n := |events| - 1;
      assert events[n] in events;
      ItemsStay(states[..|events|], events[..n], id);
      StepLeavesItem(states[n], events[n], states[n + 1], id);
    }
  }

  lemma ContentOfItem(a: Tree, b: Tree, id: string, name: string)
    requires Item(a, id) == Item(b, id)
    ensures Content(a, id, name) == Content(b, id, name)
  {
    forall r ensures SameBelow(a, ObjectAt(id, name), b, ObjectAt(id, name), r)
    {
      assert ObjectAt(id, name) + r == TrashRoot(id) + ([name] + r);
      ItemAt(a, id, [name] + r);
      ItemAt(b, id, [name] + r);
    }
    SameSubtrees(a, ObjectAt(id, name), b, ObjectAt(id, name));
  }

  /** At `q`, only a directory on the way to `p` may be new. */
  ghost predicate AtMostParentAdded(before: Tree, after: Tree, p: Path, q: Path)
  {
    if q in before then q in after && after[q] == before[q]
    else q in after ==> q < p && after[q] == Dir
  }

  /** Besides what is at or below `p`, users see what they saw before, and new parents of `p`. */
  ghost predicate OnlyParentsAdded(before: Tree, after: Tree, p: Path)
  {
    forall q :: VisiblePath(q) && !(p <= q) ==> AtMostParentAdded(before, after, p, q)
  }

  lemma RestoredElsewhere(t: Tree, id: string, name: string, p: Path, end: Tree, q: Path)
    requires VisiblePath(p) && VisiblePath(q) && !(p <= q)
    requires RemovedPartly(Restored(t, id, name, p), end, TrashRoot(id))
    ensures AtMostParentAdded(t, end, p, q)
  {
    var up := p[..|p| - 1];
    RestoredAtVisible(t, id, name, p, q);
    PlacedAt(Without(WithDirs(t, up), p), p, Content(t, id, name), q);
    WithDirsAt(t, up, q);
    assert up <= p;
    LongerPrefix(q, up, p);
  }

  lemma RestoredBack(t: Tree, id: string, name: string, p: Path, end: Tree)
    requires VisiblePath(p)
    requires RemovedPartly(Restored(t, id, name, p), end, TrashRoot(id))
    ensures Subtree(end, p) == Content(t, id, name)
    ensures OnlyParentsAdded(t, end, p)
    ensures forall other :: other != id ==> Item(end, other) == Item(t, other)
  {
    RestoreEffect(t, id, name, p);
    CleaningUp(Restored(t, id, name, p), end, id);
    forall q | VisiblePath(q) && !(p <= q) ensures AtMostParentAdded(t, end, p, q)
    {
      RestoredElsewhere(t, id, name, p, end, q);
    }
  }

  /** An object is deleted, other things happen, among them the deletion and restoration of any
      number of other objects in any order; then it is restored to its original path. Its exact
      subtree is back, nothing else that users see has changed except for parent directories made
      anew, and the other items in the trash are untouched. */
  lemma DeleteRestoreRoundTrip(start: Tree, p: Path, id: string, payload: Bytes,
                               states: seq<Tree>, events: seq<Event>, end: Tree)
    requires p != [] && p[|p| - 1] != META
    requires Run(states, events) && forall e :: e in events ==> !Concerns(e, id)
    requires Next(start, Delete(p, id, payload), states[0])
    requires Next(states[|events|], Restore(id, p[|p| - 1], p), end)
    ensures MetaAt(id) in states[|events|] && states[|events|][MetaAt(id)] == File(payload)
    ensures Subtree(end, p) == Subtree(start, p)
    ensures OnlyParentsAdded(states[|events|], end, p)
    ensures forall other :: other != id ==> Item(end, other) == Item(states[|events|], other)
  {
    SoftDeleteEffect(start, p, id, payload);
    assert MetaAt(id) == TrashRoot(id) + [META];
    ItemAt(states[0], id, [META]);
    ItemAt(states[|events|], id, [META]);
    DeletingKeepsContent(start, p, id, payload);
    ItemsStay(states, events, id);
    ContentOfItem(states[|events|], states[0], id, p[|p| - 1]);
    RestoredBack(states[|events|], id, p[|p| - 1], p, end);
  }

  lemma AtOnceBelow(t: Tree, p: Path, id: string, payload: Bytes, q: Path)
    requires Rooted(t) && VisiblePath(p) && p[|p| - 1] != META && p <= q
    ensures SameAt(Restored(SoftDeleted(t, p, id, payload), id, p[|p| - 1], p), t, q)
  {
    var gone := SoftDeleted(t, p, id, payload);
    var name := p[|p| - 1];
    DeletingKeepsContent(t, p, id, payload);
    RestoreEffect(gone, id, name, p);
    SubtreesAgree(Restored(gone, id, name, p), t, p, q);
  }

  lemma AtOnceElsewhere(t: Tree, p: Path, id: string, payload: Bytes, q: Path)
    requires Rooted(t) && VisiblePath(p) && p in t && (q == [] || VisiblePath(q)) && !(p <= q)
    ensures SameAt(Restored(SoftDeleted(t, p, id, payload), id, p[|p| - 1], p), t, q)
  {
    var gone := SoftDeleted(t, p, id, payload);
    var up := p[..|p| - 1];
    RestoredAtVisible(gone, id, p[|p| - 1], p, q);
    PlacedAt(Without(WithDirs(gone, up), p), p, Content(gone, id, p[|p| - 1]), q);
    WithDirsAt(gone, up, q);
    DeletedAtVisible(t, p, id, payload, q);
    assert up <= p;
    LongerPrefix(q, up, p);
    if q <= up {
      PrefixPresent(t, q, p);
    }
  }

  /** Restored at once, a deleted object leaves no trace that users could see. */
  lemma DeleteThenRestoreAtOnce(t: Tree, p: Path, id: string, payload: Bytes)
    requires Rooted(t) && VisiblePath(p) && p in t && p[|p| - 1] != META
    ensures Visible(Restored(SoftDeleted(t, p, id, payload), id, p[|p| - 1], p)) == Visible(t)
  {
    var back := Restored(SoftDeleted(t, p, id, payload), id, p[|p| - 1], p);
    forall q | q == [] || VisiblePath(q) ensures SameAt(back, t, q)
    {
      if p <= q {
        AtOnceBelow(t, p, id, payload, q);
      } else {
        AtOnceElsewhere(t, p, id, payload, q);
      }
    }
    SameVisible(back, t);
  }
}
