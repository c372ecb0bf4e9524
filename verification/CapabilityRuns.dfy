/** What holds after every run of the handlers, and what it means for requests. */
module CapabilityRuns {
  import opened Capabilities
  import opened CapabilitySteps

  /** After every run of serialised handlers each live capability is backed by current authority. */
  lemma {:induction false} EveryRunSound(db: Db, events: seq<Event>)
    requires Sound(db)
    ensures Sound(Run(db, events))
    decreases events
  {
    if events != [] {
      StepKeepsSound(db, events[0]);
      EveryRunSound(Step(db, events[0]), events[1..]);
    }
  }

  lemma {:induction false} NothingComesBack(db: Db, events: seq<Event>)
    ensures OnlyTakenBack(db, Run(db, events))
    decreases events
  {
    if events != [] {
      NothingComesBack(Step(db, events[0]), events[1..]);
      TakingBackComposes(db, Step(db, events[0]), Run(db, events));
    }
  }

  // ---- What the invariant means for requests ----

  /** The joins behind `Exchange`, `VerifySession` and `IncrementDownload`. */
  predicate ShareUsable(db: Db, id: string)
  {
    id in db.shares && !db.shares[id].revoked &&
    ShareSource(db, db.shares[id].creator, db.shares[id].space, db.shares[id].mount)
  }

  /** In every reachable state an unrevoked share can be used exactly while its mount is
      available: revocation has already dealt with every other reason. */
  lemma UnrevokedShareUsableIffMountActive(events: seq<Event>, id: string)
    requires id in Run(EMPTY, events).shares && !Run(EMPTY, events).shares[id].revoked
    ensures var db := Run(EMPTY, events);
            db.shares[id].mount in db.mounts &&
            (ShareUsable(db, id) <==> db.mounts[db.shares[id].mount].status == Active)
  {
    EveryRunSound(EMPTY, events);
    assert ShareBacked(Run(EMPTY, events), Run(EMPTY, events).shares[id]);
  }

  /** The same for an upload session and the permission to write. */
  lemma RunningUploadMayWriteIffMountActive(events: seq<Event>, id: string)
    requires id in Run(EMPTY, events).uploads && Run(EMPTY, events).uploads[id].status == Running
    ensures var db := Run(EMPTY, events);
            var u := db.uploads[id];
            u.mount in db.mounts &&
            (Authorize(db, u.account, u.space, u.mount, Write) <==> db.mounts[u.mount].status == Active)
  {
    EveryRunSound(EMPTY, events);
    assert UploadBacked(Run(EMPTY, events), Run(EMPTY, events).uploads[id]);
  }

  /** And for a token boundary and the permission to read, as long as the token itself is live. */
  lemma BoundaryMayReadIffMountActive(events: seq<Event>, b: Boundary)
    requires b in Run(EMPTY, events).boundaries && b.token in Run(EMPTY, events).tokens
    requires !Run(EMPTY, events).tokens[b.token].revoked
    ensures var db := Run(EMPTY, events);
            && b.scope.mount in db.mounts
            && (Authorize(db, db.tokens[b.token].account, b.scope.space, b.scope.mount, Read) <==>
                db.mounts[b.scope.mount].status == Active)
  {
    EveryRunSound(EMPTY, events);
    var db := Run(EMPTY, events);
    assert BoundaryBacked(db, b);
    assert GrantBacked(db, Grantee(b.scope.mount, db.tokens[b.token].account));
  }

  // ---- Why the handlers must be serialised ----

  lemma FreshUpdateIsUpdate(db: Db, mount: string, newMode: Option<Mode>, newPublicShares: Option<bool>)
    requires Live(db, mount) && (newMode.Some? || newPublicShares.Some?)
    ensures StaleUpdateMount(db, mount, db.mounts[mount], newMode, newPublicShares) ==
            UpdateMountTx(db, mount, newMode, newPublicShares)
  {
  }

  /** Some running upload or unrevoked share would lose its footing without being ended. */
  ghost predicate ClosesDoorSilently(db: Db, mount: string, loaded: Mount, newMode: Option<Mode>, newPublicShares: Option<bool>)
  {
    || (newMode.None? && loaded.mode == ReadOnly &&
        exists id :: id in db.uploads && db.uploads[id].mount == mount && db.uploads[id].status == Running)
    || (newPublicShares.None? && !loaded.publicShares &&
        exists id :: id in db.shares && db.shares[id].mount == mount && !db.shares[id].revoked)
  }

  lemma SilentCloseBreaksSound(db: Db, mount: string, loaded: Mount, newMode: Option<Mode>, newPublicShares: Option<bool>)
    requires Live(db, mount) && ClosesDoorSilently(db, mount, loaded, newMode, newPublicShares)
    ensures !Sound(StaleUpdateMount(db, mount, loaded, newMode, newPublicShares))
  {
    var after := StaleUpdateMount(db, mount, loaded, newMode, newPublicShares);
    if newMode.None? && loaded.mode == ReadOnly &&
       exists id :: id in db.uploads && db.uploads[id].mount == mount && db.uploads[id].status == Running
    {
      var id :| id in db.uploads && db.uploads[id].mount == mount && db.uploads[id].status == Running;
      assert after.uploads[id] == db.uploads[id];
      assert !UploadBacked(after, after.uploads[id]);
    } else {
      var id :| id in db.shares && db.shares[id].mount == mount && !db.shares[id].revoked;
      assert after.shares[id] == db.shares[id];
      assert !ShareBacked(after, after.shares[id]);
    }
  }

  lemma OpenUpdateBacksShares(db: Db, mount: string, loaded: Mount, newMode: Option<Mode>, newPublicShares: Option<bool>)
    requires Sound(db) && Live(db, mount) && !ClosesDoorSilently(db, mount, loaded, newMode, newPublicShares)
    ensures SharesBacked(StaleUpdateMount(db, mount, loaded, newMode, newPublicShares))
  {
    var after := StaleUpdateMount(db, mount, loaded, newMode, newPublicShares);
    forall id | id in after.shares && !after.shares[id].revoked ensures ShareBacked(after, after.shares[id])
    {
      assert after.shares[id] == db.shares[id];
      assert ShareBacked(db, db.shares[id]);
    }
  }

  lemma OpenUpdateBacksUploads(db: Db, mount: string, loaded: Mount, newMode: Option<Mode>, newPublicShares: Option<bool>)
    requires Sound(db) && Live(db, mount) && !ClosesDoorSilently(db, mount, loaded, newMode, newPublicShares)
    ensures UploadsBacked(StaleUpdateMount(db, mount, loaded, newMode, newPublicShares))
  {
    var after := StaleUpdateMount(db, mount, loaded, newMode, newPublicShares);
    forall id | id in after.uploads && after.uploads[id].status == Running ensures UploadBacked(after, after.uploads[id])
    {
      assert after.uploads[id] == db.uploads[id];
      assert UploadBacked(db, db.uploads[id]);
    }
  }

  lemma OpenUpdateKeepsSound(db: Db, mount: string, loaded: Mount, newMode: Option<Mode>, newPublicShares: Option<bool>)
    requires Sound(db) && Live(db, mount) && !ClosesDoorSilently(db, mount, loaded, newMode, newPublicShares)
    ensures Sound(StaleUpdateMount(db, mount, loaded, newMode, newPublicShares))
  {
    OpenUpdateBacksShares(db, mount, loaded, newMode, newPublicShares);
    OpenUpdateBacksUploads(db, mount, loaded, newMode, newPublicShares);
  }

  /** Writing back a stale row keeps the invariant exactly when it closes no door that something
      still stands in. */
  lemma StaleUpdateKeepsSoundIff(db: Db, mount: string, loaded: Mount, newMode: Option<Mode>, newPublicShares: Option<bool>)
    requires Sound(db) && Live(db, mount)
    ensures Sound(StaleUpdateMount(db, mount, loaded, newMode, newPublicShares)) <==>
            !ClosesDoorSilently(db, mount, loaded, newMode, newPublicShares)
  {
    if ClosesDoorSilently(db, mount, loaded, newMode, newPublicShares) {
      SilentCloseBreaksSound(db, mount, loaded, newMode, newPublicShares);
    } else {
      OpenUpdateKeepsSound(db, mount, loaded, newMode, newPublicShares);
    }
  }

  /** One upload running on one mount. */
  const BUSY := Db(
    map["u" := Enabled], {"s"}, map[Member("s", "u") := Editor], map["m" := Mount("s", ReadWrite, false, Active)],
    map[Grantee("m", "u") := Editor], map[], map["up" := Upload("u", "s", "m", Running)], map[], {})

  /** A request that only concerns public shares, and loaded the mount while it was read-only,
      leaves the upload running on a read-only mount. */
  lemma StaleUpdateCanBreak()
    ensures Sound(BUSY)
    ensures !Sound(StaleUpdateMount(BUSY, "m", Mount("s", ReadOnly, false, Active), None, Some(true)))
  {
    assert "up" in BUSY.uploads && BUSY.uploads["up"].mount == "m";
    SilentCloseBreaksSound(BUSY, "m", Mount("s", ReadOnly, false, Active), None, Some(true));
  }

  lemma FreshFinishIsFinish(db: Db, id: string, outcome: UploadStatus)
    requires id in db.uploads && db.uploads[id].status == Running && outcome in {Completed, Canceled}
    ensures StaleFinishUpload(db, id, outcome) == FinishUploadTx(db, id, outcome)
  {
  }

  lemma StaleFinishKeepsSound(db: Db, id: string, outcome: UploadStatus)
    requires Sound(db) && id in db.uploads && outcome != Running
    ensures Sound(StaleFinishUpload(db, id, outcome))
  {
    var after := StaleFinishUpload(db, id, outcome);
    forall u | u in after.uploads && after.uploads[u].status == Running ensures UploadBacked(after, after.uploads[u])
    {
      assert UploadBacked(db, db.uploads[u]);
    }
  }

  lemma StaleFinishTakesBackIff(db: Db, id: string, outcome: UploadStatus)
    requires id in db.uploads
    ensures OnlyTakenBack(db, StaleFinishUpload(db, id, outcome)) <==> db.uploads[id].status in {Running, outcome}
  {
    var after := StaleFinishUpload(db, id, outcome);
    assert db.uploads[id].status !in {Running, outcome} ==> after.uploads[id] != db.uploads[id];
  }

  /** An upload was running when the request came in; whatever the handlers did since, writing its
      outcome keeps the invariant, and overwrites how the upload ended exactly when it has ended
      otherwise in the meantime. */
  lemma StaleFinishOverwritesIff(db: Db, events: seq<Event>, id: string, outcome: UploadStatus)
    requires Sound(db) && id in db.uploads && db.uploads[id].status == Running && outcome in {Completed, Canceled}
    ensures var now := Run(db, events);
            && id in now.uploads
            && Sound(StaleFinishUpload(now, id, outcome))
            && (OnlyTakenBack(now, StaleFinishUpload(now, id, outcome)) <==> now.uploads[id].status in {Running, outcome})
  {
    NothingComesBack(db, events);
    EveryRunSound(db, events);
    StaleFinishKeepsSound(Run(db, events), id, outcome);
    StaleFinishTakesBackIff(Run(db, events), id, outcome);
  }

  /** The account is disabled between a completion's look at the upload and its update: the
      upload, canceled by then, ends up as completed. */
  lemma StaleFinishCanOverwrite()
    ensures var now := Run(BUSY, [Memberships(SetUserEnabled("u", false))]);
            && BUSY.uploads["up"].status == Running && now.uploads["up"].status == Canceled
            && StaleFinishUpload(now, "up", Completed).uploads["up"].status == Completed
            && !OnlyTakenBack(now, StaleFinishUpload(now, "up", Completed))
  {
    var events := [Memberships(SetUserEnabled("u", false))];
    assert events[1..] == [];
    assert Run(BUSY, events) == Step(BUSY, events[0]) == Disabling(BUSY, "u");
    StaleUpdateCanBreak();
    StaleFinishOverwritesIff(BUSY, events, "up", Completed);
  }
}
