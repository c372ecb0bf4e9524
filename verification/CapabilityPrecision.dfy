/** The handlers take back no more than they must: what a step revokes, cancels or drops without
    being asked to by name has just lost its backing. */
module CapabilityPrecision {
  import opened Capabilities
  import CapabilitySteps

  ghost predicate SharesLostUnbacked(db: Db, after: Db)
  {
    forall id ::
      (id in db.shares && !db.shares[id].revoked && id in after.shares && after.shares[id].revoked) ==>
        !ShareBacked(after, db.shares[id])
  }

  ghost predicate UploadsLostUnbacked(db: Db, after: Db)
  {
    forall id ::
      (id in db.uploads && db.uploads[id].status == Running && id in after.uploads && after.uploads[id].status != Running) ==>
        !UploadBacked(after, db.uploads[id])
  }

  ghost predicate BoundariesLostUnbacked(db: Db, after: Db)
  {
    forall b :: b in db.boundaries && b !in after.boundaries ==> !BoundaryBacked(after, b)
  }

  ghost predicate OnlyUnbackedLost(db: Db, after: Db)
  {
    SharesLostUnbacked(db, after) && UploadsLostUnbacked(db, after) && BoundariesLostUnbacked(db, after)
  }

  lemma NothingLost(db: Db, after: Db)
    requires forall id :: id in db.shares && id in after.shares ==> after.shares[id] == db.shares[id]
    requires forall id :: id in db.uploads && id in after.uploads ==> after.uploads[id] == db.uploads[id]
    requires db.boundaries <= after.boundaries
    ensures OnlyUnbackedLost(db, after)
  {
  }

  lemma SetUserEnabledPrecise(db: Db, user: string, enabled: bool)
    ensures OnlyUnbackedLost(db, SetUserEnabledTx(db, user, enabled))
  {
    if user !in db.accounts || db.accounts[user] == Removed {
    } else if enabled {
    } else {
      assert !AccountActive(Disabling(db, user), user);
    }
  }

  lemma PutSpaceMemberPrecise(db: Db, space: string, account: string, permission: Permission)
    ensures OnlyUnbackedLost(db, PutSpaceMemberTx(db, space, account, permission))
  {
  }

  lemma DeleteSpaceMemberPrecise(db: Db, space: string, account: string)
    requires Sound(db)
    ensures OnlyUnbackedLost(db, DeleteSpaceMemberTx(db, space, account))
  {
  }

  lemma UpdateMountPrecise(db: Db, mount: string, newMode: Option<Mode>, newPublicShares: Option<bool>)
    ensures OnlyUnbackedLost(db, UpdateMountTx(db, mount, newMode, newPublicShares))
  {
  }

  lemma SoftDeleteMountPrecise(db: Db, mount: string)
    ensures OnlyUnbackedLost(db, SoftDeleteMountTx(db, mount))
  {
    if !Live(db, mount) {
    } else {
      assert !Live(SoftDeleteMountTx(db, mount), mount);
    }
  }

  lemma WithoutGrantPrecise(db: Db, mount: string, account: string)
    ensures OnlyUnbackedLost(db, WithoutGrant(db, mount, account))
  {
    assert Grantee(mount, account) !in WithoutGrant(db, mount, account).grants;
  }

  lemma PutMountGrantPrecise(db: Db, mount: string, account: string, permission: Permission)
    ensures OnlyUnbackedLost(db, PutMountGrantTx(db, mount, account, permission))
  {
    if !Live(db, mount) {
    } else {
      var member := Member(db.mounts[mount].space, account);
      if !AccountActive(db, account) || member.space !in db.spaces || member !in db.members {
        WithoutGrantPrecise(db, mount, account);
      }
    }
  }

  lemma MembershipStepPrecise(db: Db, e: MembershipEvent)
    requires Sound(db)
    ensures OnlyUnbackedLost(db, MembershipStep(db, e))
  {
    match e
    case CreateAccount(id, personalSpace) => NothingLost(db, MembershipStep(db, e));
    case CreateSpace(space, owner) => NothingLost(db, MembershipStep(db, e));
    case SetUserEnabled(user, enabled) => SetUserEnabledPrecise(db, user, enabled);
    case PutSpaceMember(space, account, permission) => PutSpaceMemberPrecise(db, space, account, permission);
    case DeleteSpaceMember(space, account) => DeleteSpaceMemberPrecise(db, space, account);
  }

  lemma MountStepPrecise(db: Db, e: MountEvent)
    ensures OnlyUnbackedLost(db, MountStep(db, e))
  {
    match e
    case UpdateMount(mount, newMode, newPublicShares) => UpdateMountPrecise(db, mount, newMode, newPublicShares);
    case SoftDeleteMount(mount) => SoftDeleteMountPrecise(db, mount);
    case _ => NothingLost(db, MountStep(db, e));
  }

  lemma GrantStepPrecise(db: Db, e: GrantEvent)
    ensures OnlyUnbackedLost(db, GrantStep(db, e))
  {
    match e
    case PutMountGrant(mount, account, permission) => PutMountGrantPrecise(db, mount, account, permission);
    case DeleteMountGrant(mount, account) =>
      WithoutGrantPrecise(db, mount, account);
      NothingLost(db, db);
    case EnsureAutoGrant(mount, space, account) => NothingLost(db, GrantStep(db, e));
  }

  lemma CapabilityStepPrecise(db: Db, e: CapabilityEvent)
    requires e.CreateShare? || e.CreateUpload? || e.CreateToken? || e.RevokeToken?
    ensures OnlyUnbackedLost(db, CapabilityStep(db, e))
  {
    match e
    case CreateShare(id, account, space, mount, path) =>
      NothingLost(db, CreateShareTx(db, id, account, space, mount, path));
    case CreateUpload(id, account, space, mount) =>
      NothingLost(db, CreateUploadTx(db, id, account, space, mount));
    case CreateToken(id, account, requested) => NothingLost(db, CreateTokenTx(db, id, account, requested));
    case RevokeToken(id) => NothingLost(db, RevokeTokenTx(db, id));
  }

  /** Shares revoked, uploads ended and boundaries dropped because a request or the clock says so,
      one by one. */
  predicate ByName(e: Event)
  {
    e.Capabilities? && (e.c.RevokeSharesById? || e.c.FinishUpload? || e.c.ExpireUploads? || e.c.WithdrawToken?)
  }

  lemma StepPrecise(db: Db, e: Event)
    requires Sound(db) && !ByName(e)
    ensures OnlyUnbackedLost(db, Step(db, e))
  {
    match e
    case Memberships(m) => MembershipStepPrecise(db, m);
    case Mounts(t) => MountStepPrecise(db, t);
    case Grants(g) => GrantStepPrecise(db, g);
    case Capabilities(c) => CapabilityStepPrecise(db, c);
  }

  /** Of what was live before, a step ends exactly what its own changes leave without backing: it
      spares nothing that lost it and hits nothing that kept it. */
  lemma StepEndsExactlyTheUnbacked(db: Db, e: Event)
    requires Sound(db) && !ByName(e)
    ensures var after := Step(db, e);
            && (forall id :: id in db.shares && !db.shares[id].revoked ==>
                  id in after.shares && (after.shares[id].revoked <==> !ShareBacked(after, db.shares[id])))
            && (forall id :: id in db.uploads && db.uploads[id].status == Running ==>
                  id in after.uploads && (after.uploads[id].status != Running <==> !UploadBacked(after, db.uploads[id])))
            && (forall b :: b in db.boundaries ==> (b !in after.boundaries <==> !BoundaryBacked(after, b)))
  {
    var after := Step(db, e);
    StepPrecise(db, e);
    CapabilitySteps.StepKeepsSound(db, e);
    forall id | id in db.shares && !db.shares[id].revoked
      ensures id in after.shares && (after.shares[id].revoked <==> !ShareBacked(after, db.shares[id]))
    {
      assert after.shares[id].revoked || after.shares[id] == db.shares[id];
    }
    forall id | id in db.uploads && db.uploads[id].status == Running
      ensures id in after.uploads && (after.uploads[id].status != Running <==> !UploadBacked(after, db.uploads[id]))
    {
      assert after.uploads[id].(status := Running) == db.uploads[id];
    }
  }
}
