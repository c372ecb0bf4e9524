/** The registry of mount roots: the conflict test that guards it, and every handler that changes
    it. What the file system shows at a root (`capture`) is an input. */
module MountRegistry {
  import Paths

  datatype Option<+T> = None | Some(value: T)

  datatype MountInfo = MountInfo(available: bool, id: int, device: string, root: string)
  datatype Identity = Identity(path: string, device: nat, inode: nat, mount: MountInfo)

  // ---- Geometry ----

  predicate IsAbs(p: string)
  {
    "/" <= p
  }

  predicate SamePath(a: string, b: string)
  {
    Paths.Clean(a) == Paths.Clean(b)
  }

  /** `pathContains`. */
  predicate PathContains(parent: string, child: string)
  {
    var p, c := Paths.Clean(parent), Paths.Clean(child);
    if p == c then true
    else if p == "/" then IsAbs(c)
    else p + "/" <= c
  }

  /** What `capture` stores as a path. */
  ghost predicate CleanRoot(p: string)
  {
    IsAbs(p) && Paths.Clean(p) == p
  }

  /** The components of an absolute clean path; none for "/". */
  function Components(p: string): seq<string>
  {
    if p == "/" then [] else Paths.Split(p)[1..]
  }

  lemma RootSplit(p: string)
    requires IsAbs(p)
    ensures |Paths.Split(p)| >= 2 && Paths.Split(p)[0] == ""
    ensures Paths.Split(p)[1..] == Paths.Split(p[1..])
  {
    assert Paths.Split(p) == [""] + Paths.Split(p[1..]);
  }

  /** The string test means containment by components. */
  lemma ContainmentIsComponentPrefix(p: string, c: string)
    requires CleanRoot(p) && CleanRoot(c)
    ensures PathContains(p, c) <==> Components(p) <= Components(c)
  {
    RootSplit(p);
    RootSplit(c);
    if p != "/" {
      Paths.AtOrBelowIsComponentPrefix(p, c);
      var a, b := Paths.Split(p), Paths.Split(c);
      assert a == [""] + a[1..] && b == [""] + b[1..];
      SharedHead("", a[1..], b[1..]);
    }
  }

  lemma SharedHead(h: string, a: seq<string>, b: seq<string>)
    ensures [h] + a <= [h] + b <==> a <= b
  {
    if a <= b {
      assert [h] + b == ([h] + a) + b[|a|..];
    }
    if [h] + a <= [h] + b {
      assert a == ([h] + a)[1..] && b == ([h] + b)[1..];
    }
  }

  /** Two roots that contain one path contain each other one way or the other. */
  lemma ContainersAreComparable(a: string, b: string, path: string)
    requires CleanRoot(a) && CleanRoot(b) && CleanRoot(path)
    requires PathContains(a, path) && PathContains(b, path)
    ensures PathContains(a, b) || PathContains(b, a)
  {
    ContainmentIsComponentPrefix(a, path);
    ContainmentIsComponentPrefix(b, path);
    ContainmentIsComponentPrefix(a, b);
    ContainmentIsComponentPrefix(b, a);
    var x, y, z := Components(a), Components(b), Components(path);
    if |x| <= |y| {
      assert x == z[..|x|] == z[..|y|][..|x|] == y[..|x|];
    } else {
      assert y == z[..|y|] == z[..|x|][..|y|] == x[..|y|];
    }
  }

  /** The root directory is a clean root, and contains every other. */
  lemma RootContainsEverything(p: string)
    requires CleanRoot(p)
    ensures CleanRoot("/") && PathContains("/", p)
  {
    Paths.SplitSingle("");
    Paths.SplitAppend("", "");
    assert "" + "/" + "" == "/" && [""] + [""] == ["", ""];
    assert ["", ""][1..] == [""] && [""][1..] == [];
    assert Paths.Reduce(["", ""], true, []) == Paths.Reduce([""], true, []) == [];
  }

  datatype MountEntry = MountEntry(available: bool, point: string)

  predicate Encloses(e: MountEntry, root: string)
  {
    e.available && PathContains(e.point, root)
  }

  /** The `k`-th entry is longer than every enclosing one before it and no shorter than any after. */
  ghost predicate FirstLongest(root: string, entries: seq<MountEntry>, best: MountEntry, k: int)
  {
    && 0 <= k < |entries| && entries[k] == best
    && (forall j :: 0 <= j < |entries| && Encloses(entries[j], root) ==>
          if j < k then |entries[j].point| < |best.point| else |entries[j].point| <= |best.point|)
  }

  /** `bestMountForPath`: the first of the longest points that contain the root. */
  method BestMountForPath(root: string, entries: seq<MountEntry>) returns (best: Option<MountEntry>)
    ensures best == None <==> forall e :: e in entries ==> !(e.available && PathContains(e.point, root))
    ensures best.Some? ==> best.value in entries && best.value.available && PathContains(best.value.point, root)
    ensures best.Some? ==> exists k :: FirstLongest(root, entries, best.value, k)
  {
    best := None;
    ghost var found := 0;
    for i := 0 to |entries|
      invariant best == None ==> forall e :: e in entries[..i] ==> !Encloses(e, root)
      invariant best.Some? ==> Encloses(best.value, root) && FirstLongest(root, entries[..i], best.value, found)
    {
      assert entries[..i + 1] == entries[..i] + [entries[i]];
      if !Encloses(entries[i], root) { continue; }
      if best == None || |entries[i].point| > |best.value.point| {
        best := Some(entries[i]);
        found := i;
      }
    }
    assert entries[..|entries|] == entries;
  }

  /** The longest of the enclosing mount points is the nearest: it lies within all the others. */
  lemma LongestIsNearest(root: string, best: MountEntry, other: MountEntry)
    requires CleanRoot(root) && CleanRoot(best.point) && CleanRoot(other.point)
    requires Encloses(best, root) && Encloses(other, root) && |other.point| <= |best.point|
    ensures PathContains(other.point, best.point)
  {
    ContainersAreComparable(best.point, other.point, root);
  }

  // ---- The conflict test ----

  predicate BindSourceOverlaps(a: MountInfo, b: MountInfo)
  {
    && a.available && b.available && a.id != b.id && a.device != "" && a.device == b.device
    && IsAbs(a.root) && IsAbs(b.root)
    && (PathContains(a.root, b.root) || PathContains(b.root, a.root))
  }

  /** Two mounts from one device show parts of its tree that share something: some path of the device
      lies in both. */
  lemma BindSourceOverlapsMeans(a: MountInfo, b: MountInfo)
    requires a.available && CleanRoot(a.root) && b.available && CleanRoot(b.root)
    ensures BindSourceOverlaps(a, b) <==>
              && a.id != b.id && a.device != "" && a.device == b.device
              && exists path :: CleanRoot(path) && PathContains(a.root, path) && PathContains(b.root, path)
  {
    assert PathContains(a.root, a.root) && PathContains(b.root, b.root);
    if path :| CleanRoot(path) && PathContains(a.root, path) && PathContains(b.root, path) {
      ContainersAreComparable(a.root, b.root, path);
    }
  }

  /** A mount that is not in the mount table, or not from an absolute path, is not compared. */
  lemma BindSourceUnknown(a: MountInfo, b: MountInfo)
    ensures !a.available || !b.available || !IsAbs(a.root) || !IsAbs(b.root) ==> !BindSourceOverlaps(a, b)
    ensures BindSourceOverlaps(a, b) <==> BindSourceOverlaps(b, a)
  {
  }

  predicate Complete(i: Identity)
  {
    i.path != "" && i.device != 0 && i.inode != 0
  }

  /** The two cannot both be registered: one path contains the other, or it is one directory. */
  predicate Overlap(a: Identity, b: Identity)
  {
    || PathContains(a.path, b.path) || PathContains(b.path, a.path)
    || (a.device == b.device && a.inode == b.inode)
  }

  datatype Verdict = NoConflict | Unverifiable | Conflict

  /** `CheckConflicts`. */
  method CheckConflicts(candidate: Identity, existing: seq<Identity>) returns (v: Verdict)
    ensures v == NoConflict <==>
      && Complete(candidate)
      && forall e :: e in existing ==>
           Complete(e) && !Overlap(candidate, e) && !BindSourceOverlaps(candidate.mount, e.mount)
    ensures v == Conflict ==>
      exists e :: e in existing && Complete(e) && (Overlap(candidate, e) || BindSourceOverlaps(candidate.mount, e.mount))
  {
    if candidate.path == "" || candidate.device == 0 || candidate.inode == 0 { return Unverifiable; }
    for i := 0 to |existing|
      invariant forall e :: e in existing[..i] ==>
        Complete(e) && !Overlap(candidate, e) && !BindSourceOverlaps(candidate.mount, e.mount)
    {
      var current := existing[i];
      assert existing[..i + 1] == existing[..i] + [current];
      if current.path == "" || current.device == 0 || current.inode == 0 { return Unverifiable; }
      if SamePath(candidate.path, current.path) { return Conflict; }
      if PathContains(candidate.path, current.path) || PathContains(current.path, candidate.path) { return Conflict; }
      if candidate.device == current.device && candidate.inode == current.inode { return Conflict; }
      if BindSourceOverlaps(candidate.mount, current.mount) { return Conflict; }
    }
    assert existing[..|existing|] == existing;
    return NoConflict;
  }

  // ---- The registry ----

  datatype Row = Row(identity: Identity, deleted: bool)
  type Rows = map<string, Row>

  predicate Live(rows: Rows, id: string)
  {
    id in rows && !rows[id].deleted
  }

  /** No undeleted root contains another, and no two are one directory. */
  ghost predicate Antichain(rows: Rows)
  {
    forall a, b :: Live(rows, a) && Live(rows, b) && a != b ==> !Overlap(rows[a].identity, rows[b].identity)
  }

  ghost predicate Valid(rows: Rows)
  {
    && (forall id :: Live(rows, id) ==> CleanRoot(rows[id].identity.path) && Complete(rows[id].identity))
    && Antichain(rows)
  }

  /** Then every absolute path lies in at most one mount. */
  lemma AtMostOneMount(rows: Rows, a: string, b: string, path: string)
    requires Valid(rows) && Live(rows, a) && Live(rows, b) && CleanRoot(path)
    requires PathContains(rows[a].identity.path, path) && PathContains(rows[b].identity.path, path)
    ensures a == b
  {
    ContainersAreComparable(rows[a].identity.path, rows[b].identity.path, path);
  }

  datatype Event =
    | Register(id: string, identity: Identity)
    | Reverify(id: string, identity: Identity)
    | Refresh(id: string, identity: Identity)
    | Delete(id: string)

  /** `mountIdentityMatches`, as far as path and directory go. */
  predicate Matches(stored: Identity, current: Identity)
  {
    SamePath(stored.path, current.path) && stored.device == current.device && stored.inode == current.inode
  }

  /** What `capture` can return for a root. */
  ghost predicate CapturedAt(root: string, identity: Identity)
  {
    identity.path == Paths.Clean(root) && CleanRoot(identity.path) && Complete(identity)
  }

  /** Some live mount other than `except` stands in the way. */
  ghost predicate InTheWay(rows: Rows, identity: Identity, except: string)
  {
    exists id :: Live(rows, id) && id != except &&
      (Overlap(identity, rows[id].identity) || BindSourceOverlaps(identity.mount, rows[id].identity.mount))
  }

  ghost predicate InTheWayOfAny(rows: Rows, identity: Identity)
  {
    exists id :: InTheWay(rows, identity, id)
  }

  /** `Refused` has a reason in the registry or in the request, `Failed` one outside of both. */
  datatype Outcome = Done | Refused | Failed

  predicate FreeOf(rows: Rows, identity: Identity, except: string)
  {
    forall id :: id in rows && !rows[id].deleted && id != except ==> !Overlap(identity, rows[id].identity)
  }

  ghost predicate Enabled(rows: Rows, e: Event)
  {
    match e
    case Register(id, identity) => id !in rows && CapturedAt(identity.path, identity) && FreeOf(rows, identity, id)
    case Reverify(id, identity) => Live(rows, id) && CapturedAt(rows[id].identity.path, identity) && FreeOf(rows, identity, id)
    case Refresh(id, identity) =>
      Live(rows, id) && CapturedAt(identity.path, identity) && Matches(rows[id].identity, identity)
    case Delete(id) => Live(rows, id)
  }

  function Apply(rows: Rows, e: Event): Rows
  {
    match e
    case Register(id, identity) => rows[id := Row(identity, false)]
    case Reverify(id, identity) => rows[id := Row(identity, false)]
    case Refresh(id, identity) => rows[id := Row(identity, false)]
    case Delete(id) => if id in rows then rows[id := rows[id].(deleted := true)] else rows
  }

  lemma OverlapSymmetric(a: Identity, b: Identity)
    ensures Overlap(a, b) <==> Overlap(b, a)
  {
  }

  lemma StoringKeepsValid(rows: Rows, id: string, identity: Identity)
    requires Valid(rows) && CleanRoot(identity.path) && Complete(identity) && FreeOf(rows, identity, id)
    ensures Valid(rows[id := Row(identity, false)])
  {
    var after := rows[id := Row(identity, false)];
    forall a, b | Live(after, a) && Live(after, b) && a != b
      ensures !Overlap(after[a].identity, after[b].identity)
    {
      if a != id { assert Live(rows, a); }
      if b != id { assert Live(rows, b); }
      OverlapSymmetric(after[a].identity, after[b].identity);
    }
  }

  /** A handler touches only the row it names: afterwards its mount stands with the identity that was
      found, or, after a deletion, no longer. */
  lemma StepDoes(rows: Rows, e: Event)
    requires Enabled(rows, e)
    ensures var after := Apply(rows, e);
            && (forall other :: other != e.id ==>
                  (other in after <==> other in rows) && (other in rows ==> after[other] == rows[other]))
            && (e.Delete? ==> e.id in after && after[e.id] == rows[e.id].(deleted := true))
            && (!e.Delete? ==> Live(after, e.id) && after[e.id].identity == e.identity)
  {
  }

  /** A refreshed identity overlaps just what the stored one does. */
  lemma MatchingOverlaps(stored: Identity, current: Identity, other: Identity)
    requires Matches(stored, current)
    ensures Overlap(current, other) <==> Overlap(stored, other)
  {
  }

  lemma StepKeepsValid(rows: Rows, e: Event)
    requires Valid(rows) && Enabled(rows, e)
    ensures Valid(Apply(rows, e))
  {
    match e
    case Register(id, identity) => StoringKeepsValid(rows, id, identity);
    case Reverify(id, identity) => StoringKeepsValid(rows, id, identity);
    case Refresh(id, identity) =>
      forall other | Live(rows, other) && other != id ensures !Overlap(identity, rows[other].identity)
      {
        MatchingOverlaps(rows[id].identity, identity, rows[other].identity);
      }
      StoringKeepsValid(rows, id, identity);
    case Delete(id) =>
      var after := Apply(rows, e);
      forall a | Live(after, a) ensures Live(rows, a) && after[a] == rows[a] {}
  }

  ghost predicate Run(rows: Rows, events: seq<Event>, end: Rows)
    decreases events
  {
    if events == [] then rows == end
    else Enabled(rows, events[0]) && Run(Apply(rows, events[0]), events[1..], end)
  }

  /** In every reachable registry the roots are an antichain. */
  lemma {:induction false} RunKeepsValid(rows: Rows, events: seq<Event>, end: Rows)
    requires Valid(rows) && Run(rows, events, end)
    ensures Valid(end)
    decreases events
  {
    if events != [] {
      StepKeepsValid(rows, events[0]);
      RunKeepsValid(Apply(rows, events[0]), events[1..], end);
    }
  }

  lemma {:induction false} RunThen(rows: Rows, events: seq<Event>, middle: Rows, e: Event)
    requires Run(rows, events, middle) && Enabled(middle, e)
    ensures Run(rows, events + [e], Apply(middle, e))
    decreases events
  {
    if events != [] {
      RunThen(Apply(rows, events[0]), events[1..], middle, e);
      assert (events + [e])[1..] == events[1..] + [e];
    }
  }

  // ---- A refresh that is not serialised ----

  /** The update of `refreshMountIdentity` on its own, after the comparison was made earlier. */
  function StaleRefresh(rows: Rows, id: string, identity: Identity): Rows
  {
    if Live(rows, id) then rows[id := Row(identity, false)] else rows
  }

  /** No handler ever changes the path of a mount. */
  lemma {:induction false} RunKeepsPath(rows: Rows, events: seq<Event>, end: Rows, id: string)
    requires Run(rows, events, end) && id in rows
    ensures id in end && SamePath(end[id].identity.path, rows[id].identity.path)
    decreases events
  {
    if events != [] {
      var next := Apply(rows, events[0]);
      Paths.CleanIdempotent(rows[id].identity.path);
      assert SamePath(next[id].identity.path, rows[id].identity.path);
      RunKeepsPath(next, events[1..], end, id);
    }
  }

  predicate SameDirectory(a: Identity, b: Identity)
  {
    a.device == b.device && a.inode == b.inode
  }

  /** A mount matched what was found at its root; whatever the handlers did since, storing that
      identity keeps the registry valid exactly when the mount has been deleted or no other mount
      stands for the very directory that was found. */
  lemma StaleRefreshKeepsValidIff(rows: Rows, events: seq<Event>, now: Rows, id: string, found: Identity)
    requires Valid(rows) && Run(rows, events, now)
    requires Live(rows, id) && CapturedAt(found.path, found) && Matches(rows[id].identity, found)
    ensures Valid(StaleRefresh(now, id, found)) <==>
            Live(now, id) ==> forall other :: Live(now, other) && other != id ==> !SameDirectory(found, now[other].identity)
  {
    RunKeepsValid(rows, events, now);
    RunKeepsPath(rows, events, now, id);
    var after := StaleRefresh(now, id, found);
    if Live(now, id) {
      forall other | Live(now, other) && other != id
        ensures Overlap(found, now[other].identity) <==> SameDirectory(found, now[other].identity)
      {
        assert !Overlap(now[id].identity, now[other].identity);
      }
      if other :| Live(now, other) && other != id && SameDirectory(found, now[other].identity) {
        assert Live(after, id) && Live(after, other);
      } else {
        StoringKeepsValid(now, id, found);
      }
    }
  }

  lemma NamedRoot(name: string)
    requires name != "" && name != "." && name != ".." && '/' !in name
    ensures CleanRoot("/" + name) && Components("/" + name) == [name]
  {
    Paths.SplitSingle(name);
    Paths.SplitAppend("", name);
    assert "" + "/" + name == "/" + name;
    var parts := ["", name];
    assert Paths.Split("/" + name) == parts && parts[1..] == [name] && [name][1..] == [];
    assert Paths.Reduce(parts, true, []) == Paths.Reduce([name], true, []) == Paths.Reduce([], true, [] + [name]);
  }

  function RootAt(path: string, inode: nat): Identity
  {
    Identity(path, 1, inode, MountInfo(false, 0, "", ""))
  }

  const FOUND := RootAt("/a", 5)
  const BEFORE_MOVE: Rows := map["a" := Row(FOUND, false)]
  const MOVE := [Reverify("a", RootAt("/a", 6)), Register("b", RootAt("/b", 5))]
  const AFTER_MOVE: Rows := map["a" := Row(RootAt("/a", 6), false), "b" := Row(RootAt("/b", 5), false)]

  lemma TwoRoots()
    ensures CleanRoot("/a") && CleanRoot("/b") && !PathContains("/a", "/b") && !PathContains("/b", "/a")
  {
    NamedRoot("a");
    NamedRoot("b");
    assert "/" + "a" == "/a" && "/" + "b" == "/b";
    ContainmentIsComponentPrefix("/a", "/b");
    ContainmentIsComponentPrefix("/b", "/a");
  }

  lemma MoveIsARun()
    ensures Valid(BEFORE_MOVE) && Run(BEFORE_MOVE, MOVE, AFTER_MOVE)
  {
    TwoRoots();
    var middle := Apply(BEFORE_MOVE, MOVE[0]);
    assert MOVE[1..] == [MOVE[1]] && MOVE[1..][1..] == [];
    assert Apply(middle, MOVE[1]) == AFTER_MOVE;
    assert Run(AFTER_MOVE, [], AFTER_MOVE) && Run(middle, [MOVE[1]], AFTER_MOVE);
  }

  /** Between the comparison and the update a directory is moved from `/a` to `/b`, `/a` is made
      anew and verified, and `/b` is registered: both mounts then stand for one directory. */
  lemma StaleRefreshCanBreak()
    ensures Valid(BEFORE_MOVE) && Matches(BEFORE_MOVE["a"].identity, FOUND) && Run(BEFORE_MOVE, MOVE, AFTER_MOVE)
    ensures !Valid(StaleRefresh(AFTER_MOVE, "a", FOUND))
  {
    TwoRoots();
    MoveIsARun();
    StaleRefreshKeepsValidIff(BEFORE_MOVE, MOVE, AFTER_MOVE, "a", FOUND);
    assert Live(AFTER_MOVE, "b") && SameDirectory(FOUND, AFTER_MOVE["b"].identity);
  }

  // ---- The handlers ----

  /** What becomes of a mount point: it has a mount, or nothing is known of it, or another mount is
      in its way. */
  ghost predicate Settled(rows: Rows, point: string, captures: map<string, Identity>)
  {
    var root := Paths.Clean(point);
    || (exists id :: Live(rows, id) && Paths.Clean(rows[id].identity.path) == root)
    || root !in captures
    || InTheWayOfAny(rows, captures[root])
  }

  ghost predicate AllSettled(rows: Rows, points: seq<string>, captures: map<string, Identity>, failed: set<int>)
  {
    forall i :: 0 <= i < |points| && i !in failed ==> Settled(rows, points[i], captures)
  }

  /** The identities are those of the undeleted rows. */
  ghost predicate Loaded(rows: Rows, existing: seq<Identity>)
  {
    forall e :: e in existing <==> exists id :: Live(rows, id) && rows[id].identity == e
  }

  lemma LoadedMore(rows: Rows, id: string, identity: Identity, existing: seq<Identity>)
    requires id !in rows && Loaded(rows, existing)
    ensures Loaded(rows[id := Row(identity, false)], existing + [identity])
  {
    var after := rows[id := Row(identity, false)];
    forall e ensures e in existing + [identity] <==> exists m :: Live(after, m) && after[m].identity == e
    {
      if e == identity { assert Live(after, id); }
      if e in existing {
        var m :| Live(rows, m) && rows[m].identity == e;
        assert Live(after, m);
      }
      if m :| Live(after, m) && after[m].identity == e {
        assert m != id ==> Live(rows, m);
      }
    }
  }

  lemma StillInTheWay(rows: Rows, id: string, identity: Identity, other: Identity)
    requires id !in rows && InTheWayOfAny(rows, other)
    ensures InTheWayOfAny(rows[id := Row(identity, false)], other)
  {
    var except :| InTheWay(rows, other, except);
    var blocking :| Live(rows, blocking) && blocking != except &&
      (Overlap(other, rows[blocking].identity) || BindSourceOverlaps(other.mount, rows[blocking].identity.mount));
    var after := rows[id := Row(identity, false)];
    assert Live(after, blocking) && after[blocking] == rows[blocking];
    assert InTheWay(after, other, except);
  }

  lemma StaysSettled(rows: Rows, id: string, identity: Identity, point: string, captures: map<string, Identity>)
    requires id !in rows && Settled(rows, point, captures)
    ensures Settled(rows[id := Row(identity, false)], point, captures)
  {
    var after := rows[id := Row(identity, false)];
    var root := Paths.Clean(point);
    if m :| Live(rows, m) && Paths.Clean(rows[m].identity.path) == root {
      assert Live(after, m) && after[m] == rows[m];
    } else if root in captures {
      StillInTheWay(rows, id, identity, captures[root]);
    }
  }

  lemma AllStaySettled(rows: Rows, after: Rows, points: seq<string>, captures: map<string, Identity>, failed: set<int>)
    requires AllSettled(rows, points, captures, failed)
    requires after == rows || exists id, identity :: id !in rows && after == Apply(rows, Register(id, identity))
    ensures AllSettled(after, points, captures, failed)
  {
    if after != rows {
      var id, identity :| id !in rows && after == Apply(rows, Register(id, identity));
      forall i | 0 <= i < |points| && i !in failed ensures Settled(after, points[i], captures)
      {
        StaysSettled(rows, id, identity, points[i], captures);
      }
    }
  }

  lemma OneMoreSettled(rows: Rows, points: seq<string>, i: nat, captures: map<string, Identity>, failed: set<int>)
    requires i < |points| && AllSettled(rows, points[..i], captures, failed)
    requires i in failed || Settled(rows, points[i], captures)
    ensures AllSettled(rows, points[..i + 1], captures, failed)
  {
  }

  class Registry {
    var rows: Rows
    /** No statement fails for reasons outside the model. */
    const steady: bool

    constructor (steady: bool)
      ensures rows == map[] && Valid(rows) && this.steady == steady
    {
      rows := map[];
      this.steady := steady;
    }

    /** `loadMountIdentities`, the rows coming in any order. */
    method LoadIdentities() returns (identities: seq<Identity>)
      ensures Loaded(rows, identities)
    {
      identities := [];
      var rest := rows.Keys;
      while rest != {}
        invariant rest <= rows.Keys
        invariant forall i :: i in identities <==> exists id :: Live(rows, id) && id !in rest && rows[id].identity == i
        decreases |rest|
      {
        var id :| id in rest;
        rest := rest - {id};
        if !rows[id].deleted {
          assert Live(rows, id) && id !in rest;
          identities := identities + [rows[id].identity];
        }
      }
    }

    /** `VerifyCandidateRoot` against the undeleted rows, leaving out those at `skip`. */
    method Verify(captured: Option<Identity>, skip: Option<string>) returns (identity: Option<Identity>)
      requires Valid(rows) && (captured.Some? ==> Complete(captured.value))
      ensures identity.Some? ==> identity == captured
      ensures identity.Some? ==>
        forall id :: Live(rows, id) && (skip == None || !SamePath(rows[id].identity.path, skip.value)) ==>
          !Overlap(identity.value, rows[id].identity)
      ensures identity == None && captured.Some? ==>
        exists id :: Live(rows, id) && (skip == None || !SamePath(rows[id].identity.path, skip.value)) &&
          (Overlap(captured.value, rows[id].identity) || BindSourceOverlaps(captured.value.mount, rows[id].identity.mount))
    {
      if captured == None { return None; }
      var existing := LoadIdentities();
      var filtered := [];
      for i := 0 to |existing|
        invariant forall e :: e in filtered <==> e in existing[..i] && (skip == None || !SamePath(e.path, skip.value))
      {
        assert existing[..i + 1] == existing[..i] + [existing[i]];
        if skip == None || !SamePath(existing[i].path, skip.value) {
          filtered := filtered + [existing[i]];
        }
      }
      assert existing[..|existing|] == existing;
      var verdict := CheckConflicts(captured.value, filtered);
      if verdict != NoConflict {
        ghost var e :| e in filtered &&
          (!Complete(e) || Overlap(captured.value, e) || BindSourceOverlaps(captured.value.mount, e.mount));
        ghost var id :| Live(rows, id) && rows[id].identity == e;
        return None;
      }
      forall id | Live(rows, id) && (skip == None || !SamePath(rows[id].identity.path, skip.value))
        ensures !Overlap(captured.value, rows[id].identity)
      {
        assert rows[id].identity in filtered;
      }
      return captured;
    }

    /** `createMount`: the new id is fresh; other checks may fail. */
    method CreateMount(id: string, root: string, captured: Option<Identity>) returns (outcome: Outcome)
      requires Valid(rows) && id !in rows
      requires captured.Some? ==> CapturedAt(root, captured.value)
      modifies this
      ensures Valid(rows)
      ensures outcome != Done ==> rows == old(rows)
      ensures outcome == Refused ==> captured == None || InTheWay(rows, captured.value, id)
      ensures outcome == Done ==>
        && captured.Some? && Enabled(old(rows), Register(id, captured.value))
        && rows == Apply(old(rows), Register(id, captured.value))
        && Live(rows, id) && rows[id].identity == captured.value
      ensures steady ==> outcome != Failed
    {
      if !steady { if * { return Failed; } }
      var identity := Verify(captured, None);
      if identity == None { return Refused; }
      if !steady { if * { return Failed; } }
      Paths.CleanIdempotent(root);
      StepKeepsValid(rows, Register(id, identity.value));
      rows := rows[id := Row(identity.value, false)];
      return Done;
    }

    /** `reverifyMount`. */
    method ReverifyMount(id: string, captured: Option<Identity>) returns (outcome: Outcome)
      requires Valid(rows)
      requires Live(rows, id) && captured.Some? ==> CapturedAt(rows[id].identity.path, captured.value)
      modifies this
      ensures Valid(rows)
      ensures outcome != Done ==> rows == old(rows)
      ensures outcome == Refused ==> !Live(rows, id) || captured == None || InTheWay(rows, captured.value, id)
      ensures outcome == Done ==>
        && captured.Some? && Enabled(old(rows), Reverify(id, captured.value))
        && rows == Apply(old(rows), Reverify(id, captured.value))
        && Live(rows, id) && rows[id].identity == captured.value
      ensures steady ==> outcome != Failed
    {
      if id !in rows || rows[id].deleted { return Refused; }
      var root := rows[id].identity.path;
      var identity := Verify(captured, Some(root));
      if identity == None { return Refused; }
      if !steady { if * { return Failed; } }
      forall other | other in rows && !rows[other].deleted && other != id
        ensures !Overlap(identity.value, rows[other].identity)
      {
        assert Live(rows, other) && Live(rows, id) && !Overlap(rows[other].identity, rows[id].identity);
      }
      StepKeepsValid(rows, Reverify(id, identity.value));
      rows := rows[id := Row(identity.value, false)];
      return Done;
    }

    /** `verifyLoadedMountIdentity`, of a mount row that was loaded earlier, when the registry was
        `before`: what is found at the root is compared with the loaded identity, and stored when
        only the kernel's mount ids have changed. Whatever the other handlers did meanwhile, the
        registry stays valid exactly when the mount is gone or no other one stands for the
        directory that was found. */
    method RefreshMountIdentity(id: string, loaded: Identity, found: Identity, ghost before: Rows, ghost events: seq<Event>)
      returns (stored: bool)
      requires Valid(before) && Run(before, events, rows) && Live(before, id) && before[id].identity == loaded
      requires CapturedAt(found.path, found)
      modifies this
      ensures stored ==> Matches(loaded, found)
      ensures rows == if stored then StaleRefresh(old(rows), id, found) else old(rows)
      ensures stored && Live(old(rows), id) ==> Live(rows, id) && rows[id].identity == found
      ensures Valid(rows) <==>
        stored && Live(old(rows), id) ==>
          forall other :: Live(old(rows), other) && other != id ==> !SameDirectory(found, old(rows)[other].identity)
      ensures events == [] ==> Valid(rows)
      ensures steady ==> (stored <==> Matches(loaded, found))
    {
      RunKeepsValid(before, events, rows);
      if !Matches(loaded, found) { return false; }
      if !steady { if * { return false; } }
      StaleRefreshKeepsValidIff(before, events, rows, id, found);
      if events == [] { StepKeepsValid(rows, Refresh(id, found)); }
      if id in rows && !rows[id].deleted {
        rows := rows[id := Row(found, false)];
      }
      return true;
    }

    /** `softDeleteMount`, as far as the registry goes. */
    method SoftDeleteMount(id: string) returns (ok: bool)
      requires Valid(rows)
      modifies this
      ensures Valid(rows)
      ensures ok <==> Live(old(rows), id)
      ensures rows == if ok then Apply(old(rows), Delete(id)) else old(rows)
      ensures !Live(rows, id) && forall other :: other != id ==> (Live(rows, other) <==> Live(old(rows), other))
    {
      if id !in rows || rows[id].deleted { return false; }
      StepKeepsValid(rows, Delete(id));
      rows := rows[id := rows[id].(deleted := true)];
      return true;
    }

    /** One candidate of the loop below, against the identities loaded at its start and those
        registered since. */
    method RegisterCandidate(id: string, root: string, identity: Identity, existing: seq<Identity>) returns (outcome: Outcome)
      requires Valid(rows) && id !in rows && CapturedAt(root, identity)
      requires Loaded(rows, existing)
      modifies this
      ensures Valid(rows)
      ensures outcome != Done ==> rows == old(rows)
      ensures outcome == Refused ==> InTheWay(rows, identity, id)
      ensures outcome == Done ==>
        && Enabled(old(rows), Register(id, identity)) && rows == Apply(old(rows), Register(id, identity))
        && Live(rows, id) && rows[id].identity == identity
      ensures steady ==> outcome != Failed
    {
      var verdict := CheckConflicts(identity, existing);
      if verdict != NoConflict {
        ghost var e :| e in existing && (!Complete(e) || Overlap(identity, e) || BindSourceOverlaps(identity.mount, e.mount));
        ghost var other :| Live(rows, other) && rows[other].identity == e;
        return Refused;
      }
      if !steady { if * { return Failed; } }
      assert FreeOf(rows, identity, id) by {
        forall other | other in rows && !rows[other].deleted ensures !Overlap(identity, rows[other].identity)
        {
          assert Live(rows, other);
        }
      }
      StepKeepsValid(rows, Register(id, identity));
      rows := rows[id := Row(identity, false)];
      return Done;
    }

    /** One turn of the loop below. */
    method RegisterPoint(id: string, point: string, captures: map<string, Identity>, existing: seq<Identity>)
      returns (outcome: Outcome, known: seq<Identity>)
      requires Valid(rows) && id !in rows && Loaded(rows, existing)
      requires forall root :: root in captures ==> CapturedAt(root, captures[root])
      modifies this
      ensures Valid(rows) && Loaded(rows, known)
      ensures outcome != Done ==> rows == old(rows)
      ensures outcome != Failed ==> Settled(rows, point, captures)
      ensures outcome == Done ==>
        && Paths.Clean(point) in captures
        && var identity := captures[Paths.Clean(point)];
           && Enabled(old(rows), Register(id, identity)) && rows == Apply(old(rows), Register(id, identity))
      ensures steady ==> outcome != Failed
    {
      var root := Paths.Clean(point);
      if exists e :: e in existing && Paths.Clean(e.path) == root { return Refused, existing; }
      if root !in captures { return Refused, existing; }
      ghost var before := rows;
      outcome := RegisterCandidate(id, root, captures[root], existing);
      if outcome != Done { return outcome, existing; }
      LoadedMore(before, id, captures[root], existing);
      Paths.CleanIdempotent(point);
      assert Live(rows, id) && Paths.Clean(rows[id].identity.path) == root;
      return Done, existing + [captures[root]];
    }

    /** The registration loop of `autoRegisterDockerMounts`, over the selected mount points. What
        the file system shows at a point and the new ids are inputs. Each point ends up registered,
        unless nothing was captured there, a live mount is in the way, or the statements failed. */
    method AutoRegister(points: seq<string>, captures: map<string, Identity>, ids: seq<string>)
      returns (registered: nat, ghost events: seq<Event>, ghost failed: set<int>)
      requires Valid(rows) && |ids| == |points|
      requires forall i :: 0 <= i < |ids| ==> ids[i] !in rows
      requires forall i, j :: 0 <= i < j < |ids| ==> ids[i] != ids[j]
      requires forall root :: root in captures ==> CapturedAt(root, captures[root])
      modifies this
      ensures Valid(rows) && Run(old(rows), events, rows) && registered == |events|
      ensures forall e :: e in events ==> e.Register?
      ensures AllSettled(rows, points, captures, failed)
      ensures steady ==> failed == {}
    {
      registered, events, failed := 0, [], {};
      var existing := LoadIdentities();
      for i := 0 to |points|
        invariant Valid(rows) && Run(old(rows), events, rows) && registered == |events|
        invariant forall j :: i <= j < |ids| ==> ids[j] !in rows
        invariant Loaded(rows, existing)
        invariant forall e :: e in events ==> e.Register?
        invariant AllSettled(rows, points[..i], captures, failed) && (steady ==> failed == {})
      {
        ghost var before := rows;
        var outcome;
        outcome, existing := RegisterPoint(ids[i], points[i], captures, existing);
        AllStaySettled(before, rows, points[..i], captures, failed);
        if outcome == Done {
          ghost var e := Register(ids[i], captures[Paths.Clean(points[i])]);
          RunThen(old(rows), events, before, e);
          registered, events := registered + 1, events + [e];
        } else if outcome == Failed {
          failed := failed + {i};
        }
        OneMoreSettled(rows, points, i, captures, failed);
      }
      assert points[..|points|] == points;
    }
  }
}
