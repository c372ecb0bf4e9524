/** What each handler's transaction is for: what stands afterwards because it was asked for, that
    nothing beside it is touched, and that what is ended by name stays ended. */
module CapabilityEffects {
  import opened Capabilities
  import opened CapabilityRuns

  // ---- Authorisation, without the lesser of two ----

  predicate AtLeastEditor(p: Permission)
  {
    p == Editor || p == Manager
  }

  /** The operation is allowed exactly when both rows allow it, on a mount that is active. */
  lemma AuthorizeMeans(db: Db, account: string, space: string, mount: string, op: Operation)
    ensures Authorize(db, account, space, mount, op) <==>
              && AccountActive(db, account) && space in db.spaces
              && mount in db.mounts && db.mounts[mount].space == space && db.mounts[mount].status == Active
              && Member(space, account) in db.members && Grantee(mount, account) in db.grants
              && var m, g := db.members[Member(space, account)], db.grants[Grantee(mount, account)];
                 match op
                 case Read => true
                 case Write => AtLeastEditor(m) && AtLeastEditor(g) && db.mounts[mount].mode == ReadWrite
                 case ManageShare => m == Manager && g == Manager && db.mounts[mount].publicShares
                 case ManageACL => m == Manager && g == Manager
  {
  }

  // ---- Tables that differ in one row at most ----

  ghost predicate AccountsElse(db: Db, after: Db, id: string)
  {
    forall a :: a != id ==> (a in after.accounts <==> a in db.accounts) && (a in db.accounts ==> after.accounts[a] == db.accounts[a])
  }

  ghost predicate MembersElse(db: Db, after: Db, m: Member)
  {
    forall n :: n != m ==> (n in after.members <==> n in db.members) && (n in db.members ==> after.members[n] == db.members[n])
  }

  ghost predicate MountsElse(db: Db, after: Db, id: string)
  {
    forall m :: m != id ==> (m in after.mounts <==> m in db.mounts) && (m in db.mounts ==> after.mounts[m] == db.mounts[m])
  }

  ghost predicate GrantsElse(db: Db, after: Db, g: Grantee)
  {
    forall h :: h != g ==> (h in after.grants <==> h in db.grants) && (h in db.grants ==> after.grants[h] == db.grants[h])
  }

  ghost predicate SharesElse(db: Db, after: Db, id: string)
  {
    forall s :: s != id ==> (s in after.shares <==> s in db.shares) && (s in db.shares ==> after.shares[s] == db.shares[s])
  }

  ghost predicate UploadsElse(db: Db, after: Db, id: string)
  {
    forall u :: u != id ==> (u in after.uploads <==> u in db.uploads) && (u in db.uploads ==> after.uploads[u] == db.uploads[u])
  }

  ghost predicate TokensElse(db: Db, after: Db, id: string)
  {
    forall t :: t != id ==> (t in after.tokens <==> t in db.tokens) && (t in db.tokens ==> after.tokens[t] == db.tokens[t])
  }

  predicate SamePeople(db: Db, after: Db)
  {
    after.accounts == db.accounts && after.spaces == db.spaces && after.members == db.members
  }

  predicate SameAuthority(db: Db, after: Db)
  {
    SamePeople(db, after) && after.mounts == db.mounts && after.grants == db.grants
  }

  predicate SameCapabilities(db: Db, after: Db)
  {
    after.shares == db.shares && after.uploads == db.uploads && after.tokens == db.tokens && after.boundaries == db.boundaries
  }

  // ---- Accounts and memberships ----

  /** A new account manages its personal space, and nothing else. */
  ghost predicate CreateAccountDone(db: Db, id: string, personalSpace: string, after: Db)
  {
    if id in db.accounts || personalSpace in db.spaces then after == db
    else
      && ManagesSpace(after, personalSpace, id) && after.spaces == db.spaces + {personalSpace}
      && AccountsElse(db, after, id) && MembersElse(db, after, Member(personalSpace, id))
      && after.mounts == db.mounts && after.grants == db.grants && SameCapabilities(db, after)
  }

  lemma CreateAccountDoes(db: Db, id: string, personalSpace: string)
    ensures CreateAccountDone(db, id, personalSpace, CreateAccountTx(db, id, personalSpace))
  {
  }

  ghost predicate CreateSpaceDone(db: Db, space: string, owner: string, after: Db)
  {
    if space in db.spaces || !AccountActive(db, owner) then after == db
    else
      && ManagesSpace(after, space, owner) && after.spaces == db.spaces + {space} && after.accounts == db.accounts
      && MembersElse(db, after, Member(space, owner))
      && after.mounts == db.mounts && after.grants == db.grants && SameCapabilities(db, after)
  }

  lemma CreateSpaceDoes(db: Db, space: string, owner: string)
    ensures CreateSpaceDone(db, space, owner, CreateSpaceTx(db, space, owner))
  {
  }

  /** The account can sign in or not; the tokens of a disabled one are revoked, all others stay. */
  ghost predicate SetUserEnabledDone(db: Db, user: string, enabled: bool, after: Db)
  {
    if user !in db.accounts || db.accounts[user] == Removed then after == db
    else
      && user in after.accounts && after.accounts[user] != Removed && (AccountActive(after, user) <==> enabled)
      && AccountsElse(db, after, user) && after.spaces == db.spaces && after.members == db.members
      && after.mounts == db.mounts && after.grants == db.grants && after.boundaries == db.boundaries
      && (enabled ==> SameCapabilities(db, after))
      && after.tokens.Keys == db.tokens.Keys
      && (forall t :: t in db.tokens && db.tokens[t].account != user ==> after.tokens[t] == db.tokens[t])
      && (!enabled ==> forall t :: t in db.tokens && db.tokens[t].account == user ==> after.tokens[t].revoked)
  }

  lemma SetUserEnabledDoes(db: Db, user: string, enabled: bool)
    ensures SetUserEnabledDone(db, user, enabled, SetUserEnabledTx(db, user, enabled))
  {
    if user !in db.accounts || db.accounts[user] == Removed {
    } else if enabled {
    } else {
    }
  }

  ghost predicate PutSpaceMemberDone(db: Db, space: string, account: string, permission: Permission, after: Db)
  {
    if space !in db.spaces || account !in db.accounts then after == db
    else
      && Member(space, account) in after.members && after.members[Member(space, account)] == permission
      && MembersElse(db, after, Member(space, account)) && after.accounts == db.accounts && after.spaces == db.spaces
      && after.mounts == db.mounts && after.grants == db.grants
      && after.tokens == db.tokens && after.boundaries == db.boundaries
      && after.shares.Keys == db.shares.Keys && after.uploads.Keys == db.uploads.Keys
  }

  lemma PutSpaceMemberDoes(db: Db, space: string, account: string, permission: Permission)
    ensures PutSpaceMemberDone(db, space, account, permission, PutSpaceMemberTx(db, space, account, permission))
  {
  }

  /** The grants in the space go with the membership, all others stay. */
  ghost predicate DeleteSpaceMemberDone(db: Db, space: string, account: string, after: Db)
  {
    if Member(space, account) !in db.members then after == db
    else
      && Member(space, account) !in after.members && MembersElse(db, after, Member(space, account))
      && after.accounts == db.accounts && after.spaces == db.spaces && after.mounts == db.mounts
      && after.tokens == db.tokens && after.shares.Keys == db.shares.Keys && after.uploads.Keys == db.uploads.Keys
      && (forall g :: g in after.grants <==>
            g in db.grants && !(g.account == account && g.mount in db.mounts && db.mounts[g.mount].space == space))
      && (forall g :: g in after.grants ==> after.grants[g] == db.grants[g])
  }

  lemma DeleteSpaceMemberDoes(db: Db, space: string, account: string)
    ensures DeleteSpaceMemberDone(db, space, account, DeleteSpaceMemberTx(db, space, account))
  {
  }

  ghost predicate MembershipDone(db: Db, e: MembershipEvent, after: Db)
  {
    match e
    case CreateAccount(id, personalSpace) => CreateAccountDone(db, id, personalSpace, after)
    case CreateSpace(space, owner) => CreateSpaceDone(db, space, owner, after)
    case SetUserEnabled(user, enabled) => SetUserEnabledDone(db, user, enabled, after)
    case PutSpaceMember(space, account, permission) => PutSpaceMemberDone(db, space, account, permission, after)
    case DeleteSpaceMember(space, account) => DeleteSpaceMemberDone(db, space, account, after)
  }

  lemma MembershipStepDoes(db: Db, e: MembershipEvent)
    ensures MembershipDone(db, e, MembershipStep(db, e))
  {
    match e
    case CreateAccount(id, personalSpace) => CreateAccountDoes(db, id, personalSpace);
    case CreateSpace(space, owner) => CreateSpaceDoes(db, space, owner);
    case SetUserEnabled(user, enabled) => SetUserEnabledDoes(db, user, enabled);
    case PutSpaceMember(space, account, permission) => PutSpaceMemberDoes(db, space, account, permission);
    case DeleteSpaceMember(space, account) => DeleteSpaceMemberDoes(db, space, account);
  }

  // ---- Mounts ----

  /** Nobody may do anything on the mount. */
  ghost predicate Closed(db: Db, mount: string)
  {
    forall account, space, op :: !Authorize(db, account, space, mount, op)
  }

  /** A new mount is active, and nobody has any authority on it yet. */
  ghost predicate CreateMountDone(db: Db, id: string, space: string, mode: Mode, after: Db)
  {
    if id in db.mounts || space !in db.spaces then after == db
    else
      && id in after.mounts && after.mounts[id] == Mount(space, mode, false, Active) && MountsElse(db, after, id)
      && SamePeople(db, after) && after.grants == db.grants && SameCapabilities(db, after)
      && (Sound(db) ==> Closed(after, id))
  }

  lemma CreateMountDoes(db: Db, id: string, space: string, mode: Mode)
    ensures CreateMountDone(db, id, space, mode, CreateMountTx(db, id, space, mode))
  {
    if id in db.mounts || space !in db.spaces {
    } else {
    }
  }

  /** The account manages the mount that is registered for it, but nothing on it may be shared. */
  ghost predicate AutoRegisterMountDone(db: Db, id: string, space: string, account: string, mode: Mode, after: Db)
  {
    if id in db.mounts || !ManagesSpace(db, space, account) then after == db
    else
      && Authorize(after, account, space, id, ManageACL) && !Authorize(after, account, space, id, ManageShare)
      && (Authorize(after, account, space, id, Write) <==> mode == ReadWrite)
      && MountsElse(db, after, id) && GrantsElse(db, after, Grantee(id, account))
      && SamePeople(db, after) && SameCapabilities(db, after)
  }

  lemma AutoRegisterMountDoes(db: Db, id: string, space: string, account: string, mode: Mode)
    ensures AutoRegisterMountDone(db, id, space, account, mode, AutoRegisterMountTx(db, id, space, account, mode))
  {
  }

  /** What the request leaves out stays. */
  ghost predicate UpdateMountDone(db: Db, mount: string, newMode: Option<Mode>, newPublicShares: Option<bool>, after: Db)
  {
    if !Live(db, mount) then after == db
    else
      && mount in after.mounts && MountsElse(db, after, mount)
      && after.mounts[mount].space == db.mounts[mount].space && after.mounts[mount].status == db.mounts[mount].status
      && after.mounts[mount].mode == (if newMode == None then db.mounts[mount].mode else newMode.value)
      && after.mounts[mount].publicShares == (if newPublicShares == None then db.mounts[mount].publicShares else newPublicShares.value)
      && SamePeople(db, after) && after.grants == db.grants && after.tokens == db.tokens && after.boundaries == db.boundaries
      && after.shares.Keys == db.shares.Keys && after.uploads.Keys == db.uploads.Keys
  }

  lemma UpdateMountDoes(db: Db, mount: string, newMode: Option<Mode>, newPublicShares: Option<bool>)
    ensures UpdateMountDone(db, mount, newMode, newPublicShares, UpdateMountTx(db, mount, newMode, newPublicShares))
  {
    if !Live(db, mount) || (newMode.None? && newPublicShares.None?) {
    } else {
    }
  }

  /** Nobody may do anything on the mount until it is verified again, and then everything is as before. */
  ghost predicate MarkUnavailableDone(db: Db, mount: string, after: Db)
  {
    if mount !in db.mounts || db.mounts[mount].status != Active then after == db
    else
      && Closed(after, mount) && MountsElse(db, after, mount) && ReverifyTx(after, mount) == db
      && SamePeople(db, after) && after.grants == db.grants && SameCapabilities(db, after)
  }

  lemma MarkUnavailableDoes(db: Db, mount: string)
    ensures MarkUnavailableDone(db, mount, MarkUnavailableTx(db, mount))
  {
    if mount in db.mounts && db.mounts[mount].status == Active {
      assert ReverifyTx(MarkUnavailableTx(db, mount), mount).mounts == db.mounts;
    }
  }

  ghost predicate ReverifyDone(db: Db, mount: string, after: Db)
  {
    if !Live(db, mount) then after == db
    else
      && mount in after.mounts && after.mounts[mount] == db.mounts[mount].(status := Active) && MountsElse(db, after, mount)
      && SamePeople(db, after) && after.grants == db.grants && SameCapabilities(db, after)
  }

  lemma ReverifyDoes(db: Db, mount: string)
    ensures ReverifyDone(db, mount, ReverifyTx(db, mount))
  {
  }

  /** Nobody may do anything on the mount, and its grants are gone. */
  ghost predicate SoftDeleteMountDone(db: Db, mount: string, after: Db)
  {
    if !Live(db, mount) then after == db
    else
      && Closed(after, mount) && !Live(after, mount) && mount in after.mounts
      && after.mounts[mount] == db.mounts[mount].(status := Deleted) && MountsElse(db, after, mount)
      && (forall g :: g in after.grants <==> g in db.grants && g.mount != mount)
      && (forall g :: g in after.grants ==> after.grants[g] == db.grants[g])
      && SamePeople(db, after) && after.tokens == db.tokens
      && after.shares.Keys == db.shares.Keys && after.uploads.Keys == db.uploads.Keys
  }

  lemma SoftDeleteMountDoes(db: Db, mount: string)
    ensures SoftDeleteMountDone(db, mount, SoftDeleteMountTx(db, mount))
  {
  }

  ghost predicate MountDone(db: Db, e: MountEvent, after: Db)
  {
    match e
    case CreateMount(id, space, mode) => CreateMountDone(db, id, space, mode, after)
    case AutoRegisterMount(id, space, account, mode) => AutoRegisterMountDone(db, id, space, account, mode, after)
    case UpdateMount(mount, newMode, newPublicShares) => UpdateMountDone(db, mount, newMode, newPublicShares, after)
    case MarkUnavailable(mount) => MarkUnavailableDone(db, mount, after)
    case Reverify(mount) => ReverifyDone(db, mount, after)
    case SoftDeleteMount(mount) => SoftDeleteMountDone(db, mount, after)
  }

  lemma MountStepDoes(db: Db, e: MountEvent)
    ensures MountDone(db, e, MountStep(db, e))
  {
    match e
    case CreateMount(id, space, mode) => CreateMountDoes(db, id, space, mode);
    case AutoRegisterMount(id, space, account, mode) => AutoRegisterMountDoes(db, id, space, account, mode);
    case UpdateMount(mount, newMode, newPublicShares) => UpdateMountDoes(db, mount, newMode, newPublicShares);
    case MarkUnavailable(mount) => MarkUnavailableDoes(db, mount);
    case Reverify(mount) => ReverifyDoes(db, mount);
    case SoftDeleteMount(mount) => SoftDeleteMountDoes(db, mount);
  }

  // ---- Grants ----

  ghost predicate EnsureAutoGrantDone(db: Db, mount: string, space: string, account: string, after: Db)
  {
    if !Live(db, mount) || db.mounts[mount].space != space || !ManagesSpace(db, space, account) then after == db
    else
      && Grantee(mount, account) in after.grants && after.grants[Grantee(mount, account)] == Manager
      && GrantsElse(db, after, Grantee(mount, account))
      && SamePeople(db, after) && after.mounts == db.mounts && SameCapabilities(db, after)
  }

  lemma EnsureAutoGrantDoes(db: Db, mount: string, space: string, account: string)
    ensures EnsureAutoGrantDone(db, mount, space, account, EnsureAutoGrantTx(db, mount, space, account))
  {
  }

  /** The grant stands if the account is an active member, and is gone otherwise. */
  ghost predicate PutMountGrantDone(db: Db, mount: string, account: string, permission: Permission, after: Db)
  {
    if !Live(db, mount) then after == db
    else
      && (if AccountActive(db, account) && db.mounts[mount].space in db.spaces &&
             Member(db.mounts[mount].space, account) in db.members
          then Grantee(mount, account) in after.grants && after.grants[Grantee(mount, account)] == permission
          else Grantee(mount, account) !in after.grants)
      && GrantsElse(db, after, Grantee(mount, account))
      && SamePeople(db, after) && after.mounts == db.mounts && after.tokens == db.tokens
      && after.shares.Keys == db.shares.Keys && after.uploads.Keys == db.uploads.Keys
  }

  lemma PutMountGrantDoes(db: Db, mount: string, account: string, permission: Permission)
    ensures PutMountGrantDone(db, mount, account, permission, PutMountGrantTx(db, mount, account, permission))
  {
  }

  ghost predicate DeleteMountGrantDone(db: Db, mount: string, account: string, after: Db)
  {
    if !Live(db, mount) || Grantee(mount, account) !in db.grants then after == db
    else
      && Grantee(mount, account) !in after.grants && GrantsElse(db, after, Grantee(mount, account))
      && SamePeople(db, after) && after.mounts == db.mounts && after.tokens == db.tokens
      && after.shares.Keys == db.shares.Keys && after.uploads.Keys == db.uploads.Keys
  }

  lemma DeleteMountGrantDoes(db: Db, mount: string, account: string)
    ensures DeleteMountGrantDone(db, mount, account, DeleteMountGrantTx(db, mount, account))
  {
  }

  ghost predicate GrantDone(db: Db, e: GrantEvent, after: Db)
  {
    match e
    case EnsureAutoGrant(mount, space, account) => EnsureAutoGrantDone(db, mount, space, account, after)
    case PutMountGrant(mount, account, permission) => PutMountGrantDone(db, mount, account, permission, after)
    case DeleteMountGrant(mount, account) => DeleteMountGrantDone(db, mount, account, after)
  }

  lemma GrantStepDoes(db: Db, e: GrantEvent)
    ensures GrantDone(db, e, GrantStep(db, e))
  {
    match e
    case EnsureAutoGrant(mount, space, account) => EnsureAutoGrantDoes(db, mount, space, account);
    case PutMountGrant(mount, account, permission) => PutMountGrantDoes(db, mount, account, permission);
    case DeleteMountGrant(mount, account) => DeleteMountGrantDoes(db, mount, account);
  }

  // ---- Shares, uploads and tokens ----

  /** A share is created exactly for those who may manage shares, and can be used. */
  ghost predicate CreateShareDone(db: Db, id: string, account: string, space: string, mount: string, path: string, after: Db)
  {
    && SameAuthority(db, after)
    && if id in db.shares || !Authorize(db, account, space, mount, ManageShare) then after == db
       else
         && ShareUsable(after, id) && after.shares[id] == Share(account, space, mount, path, false) && SharesElse(db, after, id)
         && after.uploads == db.uploads && after.tokens == db.tokens && after.boundaries == db.boundaries
  }

  lemma CreateShareDoes(db: Db, id: string, account: string, space: string, mount: string, path: string)
    ensures CreateShareDone(db, id, account, space, mount, path, CreateShareTx(db, id, account, space, mount, path))
  {
  }

  ghost predicate RevokeSharesByIdDone(db: Db, ids: set<string>, after: Db)
  {
    && SameAuthority(db, after)
    && after.shares.Keys == db.shares.Keys
    && (forall id :: id in db.shares && id in ids ==> after.shares[id].revoked)
    && (forall id :: id in db.shares && id !in ids ==> after.shares[id] == db.shares[id])
    && after.uploads == db.uploads && after.tokens == db.tokens && after.boundaries == db.boundaries
  }

  lemma RevokeSharesByIdDoes(db: Db, ids: set<string>)
    ensures RevokeSharesByIdDone(db, ids, RevokeSharesByIdTx(db, ids))
  {
  }

  ghost predicate CreateUploadDone(db: Db, id: string, account: string, space: string, mount: string, after: Db)
  {
    && SameAuthority(db, after)
    && if id in db.uploads || !Authorize(db, account, space, mount, Write) then after == db
       else
         && id in after.uploads && after.uploads[id] == Upload(account, space, mount, Running) && UploadsElse(db, after, id)
         && after.shares == db.shares && after.tokens == db.tokens && after.boundaries == db.boundaries
  }

  lemma CreateUploadDoes(db: Db, id: string, account: string, space: string, mount: string)
    ensures CreateUploadDone(db, id, account, space, mount, CreateUploadTx(db, id, account, space, mount))
  {
  }

  ghost predicate FinishUploadDone(db: Db, id: string, outcome: UploadStatus, after: Db)
  {
    && SameAuthority(db, after)
    && if id !in db.uploads || db.uploads[id].status != Running || outcome !in {Completed, Canceled} then after == db
       else
         && id in after.uploads && after.uploads[id] == db.uploads[id].(status := outcome) && UploadsElse(db, after, id)
         && after.shares == db.shares && after.tokens == db.tokens && after.boundaries == db.boundaries
  }

  lemma FinishUploadDoes(db: Db, id: string, outcome: UploadStatus)
    ensures FinishUploadDone(db, id, outcome, FinishUploadTx(db, id, outcome))
  {
    if id !in db.uploads || db.uploads[id].status != Running || outcome !in {Completed, Canceled} {
    } else {
    }
  }

  ghost predicate ExpireUploadsDone(db: Db, ids: set<string>, after: Db)
  {
    && SameAuthority(db, after)
    && after.uploads.Keys == db.uploads.Keys
    && (forall id :: id in db.uploads ==>
          after.uploads[id] == if id in ids && db.uploads[id].status == Running then db.uploads[id].(status := Expired) else db.uploads[id])
    && after.shares == db.shares && after.tokens == db.tokens && after.boundaries == db.boundaries
  }

  lemma ExpireUploadsDoes(db: Db, ids: set<string>)
    ensures ExpireUploadsDone(db, ids, ExpireUploadsTx(db, ids))
  {
  }

  /** A token is issued exactly if its account may read within every boundary asked for, with just these boundaries. */
  ghost predicate CreateTokenDone(db: Db, id: string, account: string, requested: seq<Scope>, after: Db)
  {
    && SameAuthority(db, after)
    && if id in db.tokens || !AccountActive(db, account) || requested == [] ||
          exists scope :: scope in requested && !Authorize(db, account, scope.space, scope.mount, Read)
       then after == db
       else
         && id in after.tokens && after.tokens[id] == Token(account, false) && TokensElse(db, after, id)
         && (forall b :: b in after.boundaries <==> b in db.boundaries || (b.token == id && b.scope in requested))
         && after.shares == db.shares && after.uploads == db.uploads
  }

  lemma CreateTokenDoes(db: Db, id: string, account: string, requested: seq<Scope>)
    ensures CreateTokenDone(db, id, account, requested, CreateTokenTx(db, id, account, requested))
  {
  }

  ghost predicate RevokeTokenDone(db: Db, id: string, after: Db)
  {
    && SameAuthority(db, after)
    && (id in db.tokens ==> id in after.tokens && after.tokens[id] == db.tokens[id].(revoked := true))
    && after.tokens.Keys == db.tokens.Keys && TokensElse(db, after, id)
    && after.boundaries == db.boundaries && after.shares == db.shares && after.uploads == db.uploads
  }

  lemma RevokeTokenDoes(db: Db, id: string)
    ensures RevokeTokenDone(db, id, RevokeTokenTx(db, id))
  {
  }

  ghost predicate WithdrawTokenDone(db: Db, id: string, after: Db)
  {
    && SameAuthority(db, after)
    && (id in db.tokens ==> id in after.tokens && after.tokens[id] == db.tokens[id].(revoked := true))
    && after.tokens.Keys == db.tokens.Keys && TokensElse(db, after, id)
    && (forall b :: b in after.boundaries <==> b in db.boundaries && b.token != id)
    && after.shares == db.shares && after.uploads == db.uploads
  }

  lemma WithdrawTokenDoes(db: Db, id: string)
    ensures WithdrawTokenDone(db, id, WithdrawTokenTx(db, id))
  {
  }

  ghost predicate CapabilityDone(db: Db, e: CapabilityEvent, after: Db)
  {
    match e
    case CreateShare(id, account, space, mount, path) => CreateShareDone(db, id, account, space, mount, path, after)
    case RevokeSharesById(ids) => RevokeSharesByIdDone(db, ids, after)
    case CreateUpload(id, account, space, mount) => CreateUploadDone(db, id, account, space, mount, after)
    case FinishUpload(id, outcome) => FinishUploadDone(db, id, outcome, after)
    case ExpireUploads(ids) => ExpireUploadsDone(db, ids, after)
    case CreateToken(id, account, requested) => CreateTokenDone(db, id, account, requested, after)
    case RevokeToken(id) => RevokeTokenDone(db, id, after)
    case WithdrawToken(id) => WithdrawTokenDone(db, id, after)
  }

  lemma CapabilityStepDoes(db: Db, e: CapabilityEvent)
    ensures CapabilityDone(db, e, CapabilityStep(db, e))
  {
    match e
    case CreateShare(id, account, space, mount, path) => CreateShareDoes(db, id, account, space, mount, path);
    case RevokeSharesById(ids) => RevokeSharesByIdDoes(db, ids);
    case CreateUpload(id, account, space, mount) => CreateUploadDoes(db, id, account, space, mount);
    case FinishUpload(id, outcome) => FinishUploadDoes(db, id, outcome);
    case ExpireUploads(ids) => ExpireUploadsDoes(db, ids);
    case CreateToken(id, account, requested) => CreateTokenDoes(db, id, account, requested);
    case RevokeToken(id) => RevokeTokenDoes(db, id);
    case WithdrawToken(id) => WithdrawTokenDoes(db, id);
  }

  ghost predicate StepDone(db: Db, e: Event, after: Db)
  {
    match e
    case Memberships(m) => MembershipDone(db, m, after)
    case Mounts(t) => MountDone(db, t, after)
    case Grants(g) => GrantDone(db, g, after)
    case Capabilities(c) => CapabilityDone(db, c, after)
  }

  /** Every transaction does what it is for and touches nothing beside it; refused, it changes
      nothing. */
  lemma StepDoes(db: Db, e: Event)
    ensures StepDone(db, e, Step(db, e))
  {
    match e
    case Memberships(m) => MembershipStepDoes(db, m);
    case Mounts(t) => MountStepDoes(db, t);
    case Grants(g) => GrantStepDoes(db, g);
    case Capabilities(c) => CapabilityStepDoes(db, c);
  }

  // ---- Ended by name, ended for good ----

  predicate NamesShare(e: CapabilityEvent, id: string)
  {
    e.RevokeSharesById? && id in e.ids
  }

  predicate NamesUpload(e: CapabilityEvent, id: string)
  {
    (e.ExpireUploads? && id in e.ids) || (e.FinishUpload? && e.id == id && e.outcome in {Completed, Canceled})
  }

  predicate NamesToken(e: CapabilityEvent, id: string)
  {
    (e.RevokeToken? || e.WithdrawToken?) && e.id == id
  }

  lemma EndedAtOnce(db: Db, e: CapabilityEvent, id: string)
    ensures var after := CapabilityStep(db, e);
            && (NamesShare(e, id) && id in db.shares ==> id in after.shares && after.shares[id].revoked)
            && (NamesUpload(e, id) && id in db.uploads ==> id in after.uploads && after.uploads[id].status != Running)
            && (NamesToken(e, id) && id in db.tokens ==> id in after.tokens && after.tokens[id].revoked)
  {
    CapabilityStepDoes(db, e);
  }

  /** What a request or the clock ends by name is not live right after, nor after any later run. */
  lemma NamedEndsForGood(db: Db, e: CapabilityEvent, later: seq<Event>, id: string)
    ensures var after := Run(Step(db, Capabilities(e)), later);
            && (NamesShare(e, id) && id in db.shares ==> id in after.shares && after.shares[id].revoked)
            && (NamesUpload(e, id) && id in db.uploads ==> id in after.uploads && after.uploads[id].status != Running)
            && (NamesToken(e, id) && id in db.tokens ==> id in after.tokens && after.tokens[id].revoked)
  {
    EndedAtOnce(db, e, id);
    NothingComesBack(CapabilityStep(db, e), later);
  }
}
