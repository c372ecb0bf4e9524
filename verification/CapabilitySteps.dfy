/** Transaction by transaction: what the invariant demands is kept. */
module CapabilitySteps {
  import opened Capabilities

  // ---- The invariant ----

  /** Revoking the shares within reach, or none, is enough when all others keep their backing. */
  lemma RevocationSuffices(db: Db, after: Db, revoke: bool, reach: Reach)
    requires SharesBacked(db) && after.shares == if revoke then RevokeShares(db.shares, reach) else db.shares
    requires forall s: Share :: ShareBacked(db, s) ==>
               (revoke && reach.Covers(s.space, s.mount, s.creator)) || ShareBacked(after, s)
    ensures SharesBacked(after)
  {
    forall id | id in after.shares && !after.shares[id].revoked ensures ShareBacked(after, after.shares[id])
    {
      assert ShareBacked(db, db.shares[id]);
    }
  }

  /** So is canceling the running uploads within reach. */
  lemma CancellationSuffices(db: Db, after: Db, cancel: bool, reach: Reach)
    requires UploadsBacked(db) && after.uploads == if cancel then CancelUploads(db.uploads, reach) else db.uploads
    requires forall u: Upload :: UploadBacked(db, u) ==>
               (cancel && reach.Covers(u.space, u.mount, u.account)) || UploadBacked(after, u)
    ensures UploadsBacked(after)
  {
    forall id | id in after.uploads && after.uploads[id].status == Running ensures UploadBacked(after, after.uploads[id])
    {
      assert UploadBacked(db, db.uploads[id]);
    }
  }

  lemma WithoutGrantKeepsSound(db: Db, mount: string, account: string)
    requires Sound(db)
    ensures Sound(WithoutGrant(db, mount, account))
  {
    var after := WithoutGrant(db, mount, account);
    RevocationSuffices(db, after, true, OnMountOf(mount, account));
    CancellationSuffices(db, after, true, OnMountOf(mount, account));
  }

  lemma CreateAccountKeepsSound(db: Db, id: string, personalSpace: string)
    requires Sound(db)
    ensures Sound(CreateAccountTx(db, id, personalSpace))
  {
    if id in db.accounts || personalSpace in db.spaces {
    } else {
    }
  }

  lemma CreateSpaceKeepsSound(db: Db, space: string, owner: string)
    requires Sound(db)
    ensures Sound(CreateSpaceTx(db, space, owner))
  {
  }

  lemma DisablingKeepsSound(db: Db, user: string)
    requires Sound(db) && user in db.accounts
    ensures Sound(Disabling(db, user))
  {
    var after := Disabling(db, user);
    RevocationSuffices(db, after, true, OfAccount(user));
    CancellationSuffices(db, after, true, OfAccount(user));
  }

  lemma SetUserEnabledKeepsSound(db: Db, user: string, enabled: bool)
    requires Sound(db)
    ensures Sound(SetUserEnabledTx(db, user, enabled))
  {
    if user !in db.accounts || db.accounts[user] == Removed {
    } else if enabled {
    } else {
      DisablingKeepsSound(db, user);
    }
  }

  lemma PutSpaceMemberKeepsSound(db: Db, space: string, account: string, permission: Permission)
    requires Sound(db)
    ensures Sound(PutSpaceMemberTx(db, space, account, permission))
  {
    var after := PutSpaceMemberTx(db, space, account, permission);
    if space !in db.spaces || account !in db.accounts {
    } else {
      RevocationSuffices(db, after, permission != Manager, InSpace(space, account));
      CancellationSuffices(db, after, permission == Viewer, InSpace(space, account));
    }
  }

  lemma DeleteSpaceMemberKeepsSound(db: Db, space: string, account: string)
    requires Sound(db)
    ensures Sound(DeleteSpaceMemberTx(db, space, account))
  {
    var after := DeleteSpaceMemberTx(db, space, account);
    if Member(space, account) in db.members {
      RevocationSuffices(db, after, true, InSpace(space, account));
      CancellationSuffices(db, after, true, InSpace(space, account));
    }
  }

  lemma CreateMountKeepsSound(db: Db, id: string, space: string, mode: Mode)
    requires Sound(db)
    ensures Sound(CreateMountTx(db, id, space, mode))
  {
    if id in db.mounts || space !in db.spaces {
    } else {
    }
  }

  lemma AutoRegisterMountKeepsSound(db: Db, id: string, space: string, account: string, mode: Mode)
    requires Sound(db)
    ensures Sound(AutoRegisterMountTx(db, id, space, account, mode))
  {
  }

  lemma EnsureAutoGrantKeepsSound(db: Db, mount: string, space: string, account: string)
    requires Sound(db)
    ensures Sound(EnsureAutoGrantTx(db, mount, space, account))
  {
  }

  lemma UpdateMountKeepsSound(db: Db, mount: string, newMode: Option<Mode>, newPublicShares: Option<bool>)
    requires Sound(db)
    ensures Sound(UpdateMountTx(db, mount, newMode, newPublicShares))
  {
    var after := UpdateMountTx(db, mount, newMode, newPublicShares);
    if !Live(db, mount) || (newMode.None? && newPublicShares.None?) {
    } else {
      RevocationSuffices(db, after, newPublicShares == Some(false), OnMount(mount));
      CancellationSuffices(db, after, newMode == Some(ReadOnly), OnMount(mount));
    }
  }

  lemma MarkUnavailableKeepsSound(db: Db, mount: string)
    requires Sound(db)
    ensures Sound(MarkUnavailableTx(db, mount))
  {
  }

  lemma ReverifyKeepsSound(db: Db, mount: string)
    requires Sound(db)
    ensures Sound(ReverifyTx(db, mount))
  {
  }

  lemma SoftDeleteMountKeepsSound(db: Db, mount: string)
    requires Sound(db)
    ensures Sound(SoftDeleteMountTx(db, mount))
  {
    var after := SoftDeleteMountTx(db, mount);
    if Live(db, mount) {
      RevocationSuffices(db, after, true, OnMount(mount));
      CancellationSuffices(db, after, true, OnMount(mount));
    }
  }

  lemma PutMountGrantKeepsSound(db: Db, mount: string, account: string, permission: Permission)
    requires Sound(db)
    ensures Sound(PutMountGrantTx(db, mount, account, permission))
  {
    var after := PutMountGrantTx(db, mount, account, permission);
    if !Live(db, mount) {
    } else {
      var member := Member(db.mounts[mount].space, account);
      if !AccountActive(db, account) || member.space !in db.spaces || member !in db.members {
        WithoutGrantKeepsSound(db, mount, account);
      } else {
        RevocationSuffices(db, after, permission != Manager || db.members[member] != Manager, OnMountOf(mount, account));
        CancellationSuffices(db, after, permission == Viewer || db.members[member] == Viewer, OnMountOf(mount, account));
      }
    }
  }

  lemma DeleteMountGrantKeepsSound(db: Db, mount: string, account: string)
    requires Sound(db)
    ensures Sound(DeleteMountGrantTx(db, mount, account))
  {
    WithoutGrantKeepsSound(db, mount, account);
  }

  lemma CreateShareKeepsSound(db: Db, id: string, account: string, space: string, mount: string, path: string)
    requires Sound(db)
    ensures Sound(CreateShareTx(db, id, account, space, mount, path))
  {
  }

  lemma RevokeSharesByIdKeepsSound(db: Db, ids: set<string>)
    requires Sound(db)
    ensures Sound(RevokeSharesByIdTx(db, ids))
  {
  }

  lemma CreateUploadKeepsSound(db: Db, id: string, account: string, space: string, mount: string)
    requires Sound(db)
    ensures Sound(CreateUploadTx(db, id, account, space, mount))
  {
  }

  lemma FinishUploadKeepsSound(db: Db, id: string, outcome: UploadStatus)
    requires Sound(db)
    ensures Sound(FinishUploadTx(db, id, outcome))
  {
  }

  lemma ExpireUploadsKeepsSound(db: Db, ids: set<string>)
    requires Sound(db)
    ensures Sound(ExpireUploadsTx(db, ids))
  {
  }

  lemma CreateTokenBacksBoundaries(db: Db, id: string, account: string, requested: seq<Scope>, b: Boundary)
    requires Sound(db) && b in CreateTokenTx(db, id, account, requested).boundaries
    ensures BoundaryBacked(CreateTokenTx(db, id, account, requested), b)
  {
    if b in db.boundaries {
      assert BoundaryBacked(db, b);
    }
  }

  lemma CreateTokenKeepsSound(db: Db, id: string, account: string, requested: seq<Scope>)
    requires Sound(db)
    ensures Sound(CreateTokenTx(db, id, account, requested))
  {
    forall b | b in CreateTokenTx(db, id, account, requested).boundaries
      ensures BoundaryBacked(CreateTokenTx(db, id, account, requested), b)
    {
      CreateTokenBacksBoundaries(db, id, account, requested, b);
    }
  }

  lemma RevokeTokenKeepsSound(db: Db, id: string)
    requires Sound(db)
    ensures Sound(RevokeTokenTx(db, id))
  {
  }

  lemma WithdrawTokenKeepsSound(db: Db, id: string)
    requires Sound(db)
    ensures Sound(WithdrawTokenTx(db, id))
  {
    RevokeTokenKeepsSound(db, id);
  }

  lemma MembershipStepKeepsSound(db: Db, e: MembershipEvent)
    requires Sound(db)
    ensures Sound(MembershipStep(db, e))
  {
    match e
    case CreateAccount(id, personalSpace) => CreateAccountKeepsSound(db, id, personalSpace);
    case CreateSpace(space, owner) => CreateSpaceKeepsSound(db, space, owner);
    case SetUserEnabled(user, enabled) => SetUserEnabledKeepsSound(db, user, enabled);
    case PutSpaceMember(space, account, permission) => PutSpaceMemberKeepsSound(db, space, account, permission);
    case DeleteSpaceMember(space, account) => DeleteSpaceMemberKeepsSound(db, space, account);
  }

  lemma MountStepKeepsSound(db: Db, e: MountEvent)
    requires Sound(db)
    ensures Sound(MountStep(db, e))
  {
    match e
    case CreateMount(id, space, mode) => CreateMountKeepsSound(db, id, space, mode);
    case AutoRegisterMount(id, space, account, mode) => AutoRegisterMountKeepsSound(db, id, space, account, mode);
    case UpdateMount(mount, newMode, newPublicShares) => UpdateMountKeepsSound(db, mount, newMode, newPublicShares);
    case MarkUnavailable(mount) => MarkUnavailableKeepsSound(db, mount);
    case Reverify(mount) => ReverifyKeepsSound(db, mount);
    case SoftDeleteMount(mount) => SoftDeleteMountKeepsSound(db, mount);
  }

  lemma GrantStepKeepsSound(db: Db, e: GrantEvent)
    requires Sound(db)
    ensures Sound(GrantStep(db, e))
  {
    match e
    case EnsureAutoGrant(mount, space, account) => EnsureAutoGrantKeepsSound(db, mount, space, account);
    case PutMountGrant(mount, account, permission) => PutMountGrantKeepsSound(db, mount, account, permission);
    case DeleteMountGrant(mount, account) => DeleteMountGrantKeepsSound(db, mount, account);
  }

  lemma CapabilityStepKeepsSound(db: Db, e: CapabilityEvent)
    requires Sound(db)
    ensures Sound(CapabilityStep(db, e))
  {
    match e
    case CreateToken(id, account, requested) => CreateTokenKeepsSound(db, id, account, requested);
    case RevokeToken(id) => RevokeTokenKeepsSound(db, id);
    case WithdrawToken(id) => WithdrawTokenKeepsSound(db, id);
    case CreateShare(id, account, space, mount, path) => CreateShareKeepsSound(db, id, account, space, mount, path);
    case RevokeSharesById(ids) => RevokeSharesByIdKeepsSound(db, ids);
    case CreateUpload(id, account, space, mount) => CreateUploadKeepsSound(db, id, account, space, mount);
    case FinishUpload(id, outcome) => FinishUploadKeepsSound(db, id, outcome);
    case ExpireUploads(ids) => ExpireUploadsKeepsSound(db, ids);
  }

  lemma StepKeepsSound(db: Db, e: Event)
    requires Sound(db)
    ensures Sound(Step(db, e))
  {
    match e
    case Memberships(m) => MembershipStepKeepsSound(db, m);
    case Mounts(t) => MountStepKeepsSound(db, t);
    case Grants(g) => GrantStepKeepsSound(db, g);
    case Capabilities(c) => CapabilityStepKeepsSound(db, c);
  }

  lemma TakingBackComposes(a: Db, b: Db, c: Db)
    requires OnlyTakenBack(a, b) && OnlyTakenBack(b, c)
    ensures OnlyTakenBack(a, c)
  {
  }
}
