/** Who may do what: accounts, memberships, mounts, grants, and the capabilities handed out on
    their strength (shares, uploads, AI-token boundaries). Each handler's transaction is one step. */
module Capabilities {

  datatype Permission = Viewer | Editor | Manager
  datatype AccountStatus = Enabled | Disabled | Removed
  datatype Mode = ReadOnly | ReadWrite
  datatype MountStatus = Active | Unavailable | Deleted
  datatype UploadStatus = Running | Completed | Canceled | Expired

  datatype Member = Member(space: string, account: string)
  datatype Grantee = Grantee(mount: string, account: string)
  datatype Mount = Mount(space: string, mode: Mode, publicShares: bool, status: MountStatus)
  datatype Share = Share(creator: string, space: string, mount: string, path: string, revoked: bool)
  datatype Upload = Upload(account: string, space: string, mount: string, status: UploadStatus)
  datatype Token = Token(account: string, revoked: bool)
  datatype Scope = Scope(space: string, mount: string, path: string)
  datatype Boundary = Boundary(token: string, scope: Scope)

  /** The tables. `spaces` holds the active spaces; no handler ever deactivates one. */
  datatype Db = Db(
    accounts: map<string, AccountStatus>,
    spaces: set<string>,
    members: map<Member, Permission>,
    mounts: map<string, Mount>,
    grants: map<Grantee, Permission>,
    shares: map<string, Share>,
    uploads: map<string, Upload>,
    tokens: map<string, Token>,
    boundaries: set<Boundary>)

  const EMPTY := Db(map[], {}, map[], map[], map[], map[], map[], map[], {})

  // ---- Authorisation ----

  datatype Operation = Read | Write | ManageShare | ManageACL

  function Rank(p: Permission): nat
  {
    match p case Viewer => 1 case Editor => 2 case Manager => 3
  }

  function Minimum(a: Permission, b: Permission): Permission
  {
    if Rank(a) <= Rank(b) then a else b
  }

  predicate Allows(p: Permission, mode: Mode, op: Operation)
  {
    match op
    case Read => true
    case Write => mode == ReadWrite && (p == Editor || p == Manager)
    case ManageShare => p == Manager
    case ManageACL => p == Manager
  }

  predicate AccountActive(db: Db, account: string)
  {
    account in db.accounts && db.accounts[account] == Enabled
  }

  /** `MountService.Authorize`: the joined rows exist, and the lesser of the two permissions
      allows the operation. */
  predicate Authorize(db: Db, account: string, space: string, mount: string, op: Operation)
  {
    && AccountActive(db, account) && space in db.spaces
    && mount in db.mounts && db.mounts[mount].space == space && db.mounts[mount].status == Active
    && Member(space, account) in db.members && Grantee(mount, account) in db.grants
    && var p := Minimum(db.members[Member(space, account)], db.grants[Grantee(mount, account)]);
       && Allows(p, db.mounts[mount].mode, op)
       && (op == ManageShare ==> db.mounts[mount].publicShares)
  }

  /** The row sources of the `INSERT … SELECT` that creates a share. */
  predicate ShareSource(db: Db, account: string, space: string, mount: string)
  {
    && AccountActive(db, account) && space in db.spaces
    && Member(space, account) in db.members && db.members[Member(space, account)] == Manager
    && mount in db.mounts && db.mounts[mount].space == space
    && db.mounts[mount].status == Active && db.mounts[mount].publicShares
    && Grantee(mount, account) in db.grants && db.grants[Grantee(mount, account)] == Manager
  }

  /** The row sources of the `INSERT … SELECT` that creates an upload session. */
  predicate UploadSource(db: Db, account: string, space: string, mount: string)
  {
    && AccountActive(db, account) && space in db.spaces
    && Member(space, account) in db.members && db.members[Member(space, account)] in {Editor, Manager}
    && mount in db.mounts && db.mounts[mount].space == space
    && db.mounts[mount].status == Active && db.mounts[mount].mode == ReadWrite
    && Grantee(mount, account) in db.grants && db.grants[Grantee(mount, account)] in {Editor, Manager}
  }

  /** The guards written out in SQL decide exactly as `Authorize` does. */
  lemma InsertGuardsAgreeWithAuthorize(db: Db, account: string, space: string, mount: string)
    ensures ShareSource(db, account, space, mount) <==> Authorize(db, account, space, mount, ManageShare)
    ensures UploadSource(db, account, space, mount) <==> Authorize(db, account, space, mount, Write)
  {
  }

  // ---- Statements ----

  /** Which rows a statement's `WHERE` picks, by their space, mount and account columns. */
  datatype Reach =
    | OfAccount(account: string)
    | InSpace(space: string, account: string)
    | OnMount(mount: string)
    | OnMountOf(mount: string, account: string)
  {
    predicate Covers(space: string, mount: string, account: string)
    {
      match this
      case OfAccount(a) => account == a
      case InSpace(s, a) => space == s && account == a
      case OnMount(m) => mount == m
      case OnMountOf(m, a) => mount == m && account == a
    }
  }

  function RevokeShares(shares: map<string, Share>, reach: Reach): map<string, Share>
  {
    map id | id in shares ::
      if reach.Covers(shares[id].space, shares[id].mount, shares[id].creator) then shares[id].(revoked := true)
      else shares[id]
  }

  function CancelUploads(uploads: map<string, Upload>, reach: Reach): map<string, Upload>
  {
    map id | id in uploads ::
      if uploads[id].status == Running && reach.Covers(uploads[id].space, uploads[id].mount, uploads[id].account)
      then uploads[id].(status := Canceled) else uploads[id]
  }

  /** Deletes boundaries of tokens the account owns. */
  function DropBoundaries(boundaries: set<Boundary>, tokens: map<string, Token>, reach: Reach): set<Boundary>
  {
    set b | b in boundaries && !(b.token in tokens && reach.Covers(b.scope.space, b.scope.mount, tokens[b.token].account))
  }

  function DropBoundariesOn(boundaries: set<Boundary>, mount: string): set<Boundary>
  {
    set b | b in boundaries && b.scope.mount != mount
  }

  function DropGrants(grants: map<Grantee, Permission>, mounts: map<string, Mount>, reach: Reach): map<Grantee, Permission>
  {
    map g | g in grants && !(g.mount in mounts && reach.Covers(mounts[g.mount].space, g.mount, g.account)) :: grants[g]
  }

  function RevokeTokens(tokens: map<string, Token>, account: string): map<string, Token>
  {
    map id | id in tokens :: if tokens[id].account == account then tokens[id].(revoked := true) else tokens[id]
  }

  // ---- Transactions ----

  datatype MembershipEvent =
    | CreateAccount(id: string, personalSpace: string)
    | CreateSpace(space: string, owner: string)
    | SetUserEnabled(user: string, enabled: bool)
    | PutSpaceMember(space: string, account: string, permission: Permission)
    | DeleteSpaceMember(space: string, account: string)

  datatype MountEvent =
    | CreateMount(id: string, space: string, mode: Mode)
    | AutoRegisterMount(id: string, space: string, account: string, mode: Mode)
    | UpdateMount(mount: string, newMode: Option<Mode>, newPublicShares: Option<bool>)
    | MarkUnavailable(mount: string)
    | Reverify(mount: string)
    | SoftDeleteMount(mount: string)

  datatype GrantEvent =
    | EnsureAutoGrant(mount: string, space: string, account: string)
    | PutMountGrant(mount: string, account: string, permission: Permission)
    | DeleteMountGrant(mount: string, account: string)

  datatype CapabilityEvent =
    | CreateShare(id: string, account: string, space: string, mount: string, path: string)
    | RevokeSharesById(ids: set<string>)
    | CreateUpload(id: string, account: string, space: string, mount: string)
    | FinishUpload(id: string, outcome: UploadStatus)
    | ExpireUploads(ids: set<string>)
    | CreateToken(id: string, account: string, requested: seq<Scope>)
    | RevokeToken(id: string)
    | WithdrawToken(id: string)

  datatype Event = Memberships(m: MembershipEvent) | Mounts(t: MountEvent) | Grants(g: GrantEvent) | Capabilities(c: CapabilityEvent)

  datatype Option<+T> = None | Some(value: T)

  predicate Live(db: Db, mount: string)
  {
    mount in db.mounts && db.mounts[mount].status != Deleted
  }

  predicate ManagesSpace(db: Db, space: string, account: string)
  {
    AccountActive(db, account) && space in db.spaces &&
    Member(space, account) in db.members && db.members[Member(space, account)] == Manager
  }

  function CreateAccountTx(db: Db, id: string, personalSpace: string): (after: Db)
    ensures OnlyTakenBack(db, after)
  {
    if id in db.accounts || personalSpace in db.spaces then db
    else db.(accounts := db.accounts[id := Enabled], spaces := db.spaces + {personalSpace},
             members := db.members[Member(personalSpace, id) := Manager])
  }

  function CreateSpaceTx(db: Db, space: string, owner: string): (after: Db)
    ensures OnlyTakenBack(db, after)
  {
    if space in db.spaces || !AccountActive(db, owner) then db
    else db.(spaces := db.spaces + {space}, members := db.members[Member(space, owner) := Manager])
  }

  function CreateMountTx(db: Db, id: string, space: string, mode: Mode): (after: Db)
    ensures OnlyTakenBack(db, after)
  {
    if id in db.mounts || space !in db.spaces then db
    else db.(mounts := db.mounts[id := Mount(space, mode, false, Active)])
  }

  function AutoRegisterMountTx(db: Db, id: string, space: string, account: string, mode: Mode): (after: Db)
    ensures OnlyTakenBack(db, after)
  {
    if id in db.mounts || !ManagesSpace(db, space, account) then db
    else db.(mounts := db.mounts[id := Mount(space, mode, false, Active)],
             grants := db.grants[Grantee(id, account) := Manager])
  }

  function EnsureAutoGrantTx(db: Db, mount: string, space: string, account: string): (after: Db)
    ensures OnlyTakenBack(db, after)
  {
    if !Live(db, mount) || db.mounts[mount].space != space || !ManagesSpace(db, space, account) then db
    else db.(grants := db.grants[Grantee(mount, account) := Manager])
  }

  function MarkUnavailableTx(db: Db, mount: string): (after: Db)
    ensures OnlyTakenBack(db, after)
  {
    if mount !in db.mounts || db.mounts[mount].status != Active then db
    else db.(mounts := db.mounts[mount := db.mounts[mount].(status := Unavailable)])
  }

  function ReverifyTx(db: Db, mount: string): (after: Db)
    ensures OnlyTakenBack(db, after)
  {
    if !Live(db, mount) then db else db.(mounts := db.mounts[mount := db.mounts[mount].(status := Active)])
  }

  function CreateShareTx(db: Db, id: string, account: string, space: string, mount: string, path: string): (after: Db)
    ensures OnlyTakenBack(db, after)
  {
    if id in db.shares || !ShareSource(db, account, space, mount) then db
    else db.(shares := db.shares[id := Share(account, space, mount, path, false)])
  }

  function RevokeSharesByIdTx(db: Db, ids: set<string>): (after: Db)
    ensures OnlyTakenBack(db, after)
  {
    db.(shares := map id | id in db.shares :: if id in ids then db.shares[id].(revoked := true) else db.shares[id])
  }

  function CreateUploadTx(db: Db, id: string, account: string, space: string, mount: string): (after: Db)
    ensures OnlyTakenBack(db, after)
  {
    if id in db.uploads || !UploadSource(db, account, space, mount) then db
    else db.(uploads := db.uploads[id := Upload(account, space, mount, Running)])
  }

  function FinishUploadTx(db: Db, id: string, outcome: UploadStatus): (after: Db)
    ensures OnlyTakenBack(db, after)
  {
    if id !in db.uploads || db.uploads[id].status != Running || outcome !in {Completed, Canceled} then db
    else db.(uploads := db.uploads[id := db.uploads[id].(status := outcome)])
  }

  function ExpireUploadsTx(db: Db, ids: set<string>): (after: Db)
    ensures OnlyTakenBack(db, after)
  {
    db.(uploads := map id | id in db.uploads ::
          if id in ids && db.uploads[id].status == Running then db.uploads[id].(status := Expired) else db.uploads[id])
  }

  function RevokeTokenTx(db: Db, id: string): (after: Db)
    ensures OnlyTakenBack(db, after)
  {
    if id !in db.tokens then db else db.(tokens := db.tokens[id := db.tokens[id].(revoked := true)])
  }

  /** What `createAIToken` does when a boundary turns out to be no longer authorized. */
  function WithdrawTokenTx(db: Db, id: string): (after: Db)
    ensures OnlyTakenBack(db, after)
  {
    RevokeTokenTx(db, id).(boundaries := set b | b in db.boundaries && b.token != id)
  }

  function Disabling(db: Db, user: string): Db
  {
    db.(accounts := db.accounts[user := Disabled],
        shares := RevokeShares(db.shares, OfAccount(user)),
        tokens := RevokeTokens(db.tokens, user),
        uploads := CancelUploads(db.uploads, OfAccount(user)))
  }

  function SetUserEnabledTx(db: Db, user: string, enabled: bool): (after: Db)
    ensures OnlyTakenBack(db, after)
  {
    if user !in db.accounts || db.accounts[user] == Removed then db
    else if enabled then db.(accounts := db.accounts[user := Enabled])
    else Disabling(db, user)
  }

  function PutSpaceMemberTx(db: Db, space: string, account: string, permission: Permission): (after: Db)
    ensures OnlyTakenBack(db, after)
  {
    if space !in db.spaces || account !in db.accounts then db
    else db.(members := db.members[Member(space, account) := permission],
             shares := if permission == Manager then db.shares
                       else RevokeShares(db.shares, InSpace(space, account)),
             uploads := if permission != Viewer then db.uploads
                        else CancelUploads(db.uploads, InSpace(space, account)))
  }

  function DeleteSpaceMemberTx(db: Db, space: string, account: string): (after: Db)
    ensures OnlyTakenBack(db, after)
  {
    if Member(space, account) !in db.members then db
    else db.(members := db.members - {Member(space, account)},
             grants := DropGrants(db.grants, db.mounts, InSpace(space, account)),
             shares := RevokeShares(db.shares, InSpace(space, account)),
             uploads := CancelUploads(db.uploads, InSpace(space, account)),
             boundaries := DropBoundaries(db.boundaries, db.tokens, InSpace(space, account)))
  }

  function UpdateMountTx(db: Db, mount: string, newMode: Option<Mode>, newPublicShares: Option<bool>): (after: Db)
    ensures OnlyTakenBack(db, after)
  {
    if !Live(db, mount) || (newMode.None? && newPublicShares.None?) then db
    else
      var m := db.mounts[mount];
      db.(mounts := db.mounts[mount := m.(mode := if newMode.Some? then newMode.value else m.mode,
                                          publicShares := if newPublicShares.Some? then newPublicShares.value else m.publicShares)],
          shares := if newPublicShares == Some(false) then RevokeShares(db.shares, OnMount(mount)) else db.shares,
          uploads := if newMode == Some(ReadOnly) then CancelUploads(db.uploads, OnMount(mount)) else db.uploads)
  }

  function SoftDeleteMountTx(db: Db, mount: string): (after: Db)
    ensures OnlyTakenBack(db, after)
  {
    if !Live(db, mount) then db
    else db.(mounts := db.mounts[mount := db.mounts[mount].(status := Deleted)],
             shares := RevokeShares(db.shares, OnMount(mount)),
             boundaries := DropBoundariesOn(db.boundaries, mount),
             grants := DropGrants(db.grants, db.mounts, OnMount(mount)),
             uploads := CancelUploads(db.uploads, OnMount(mount)))
  }

  /** What is taken back from an account on a mount together with its grant. */
  function WithoutGrant(db: Db, mount: string, account: string): (after: Db)
    ensures OnlyTakenBack(db, after)
  {
    db.(grants := db.grants - {Grantee(mount, account)},
        shares := RevokeShares(db.shares, OnMountOf(mount, account)),
        uploads := CancelUploads(db.uploads, OnMountOf(mount, account)),
        boundaries := DropBoundaries(db.boundaries, db.tokens, OnMountOf(mount, account)))
  }

  function PutMountGrantTx(db: Db, mount: string, account: string, permission: Permission): (after: Db)
    ensures OnlyTakenBack(db, after)
  {
    if !Live(db, mount) then db
    else
      var member := Member(db.mounts[mount].space, account);
      if !AccountActive(db, account) || member.space !in db.spaces || member !in db.members then WithoutGrant(db, mount, account)
      else db.(grants := db.grants[Grantee(mount, account) := permission],
               shares := if permission == Manager && db.members[member] == Manager then db.shares
                         else RevokeShares(db.shares, OnMountOf(mount, account)),
               uploads := if permission != Viewer && db.members[member] != Viewer then db.uploads
                          else CancelUploads(db.uploads, OnMountOf(mount, account)))
  }

  function DeleteMountGrantTx(db: Db, mount: string, account: string): (after: Db)
    ensures OnlyTakenBack(db, after)
  {
    if !Live(db, mount) || Grantee(mount, account) !in db.grants then db else WithoutGrant(db, mount, account)
  }

  /** The row sources of one boundary's `INSERT … SELECT`. */
  predicate BoundarySource(db: Db, account: string, scope: Scope)
  {
    && scope.mount in db.mounts && db.mounts[scope.mount].space == scope.space && db.mounts[scope.mount].status == Active
    && scope.space in db.spaces && AccountActive(db, account)
    && Member(scope.space, account) in db.members && Grantee(scope.mount, account) in db.grants
  }

  /** One refused boundary refuses the whole token. */
  function CreateTokenTx(db: Db, id: string, account: string, requested: seq<Scope>): (after: Db)
    ensures OnlyTakenBack(db, after)
  {
    if id in db.tokens || !AccountActive(db, account) || requested == [] ||
       exists scope :: scope in requested && !BoundarySource(db, account, scope) then db
    else db.(tokens := db.tokens[id := Token(account, false)],
             boundaries := db.boundaries + (set scope | scope in requested :: Boundary(id, scope)))
  }

  function MembershipStep(db: Db, e: MembershipEvent): (after: Db)
    ensures OnlyTakenBack(db, after)
  {
    match e
    case CreateAccount(id, personalSpace) => CreateAccountTx(db, id, personalSpace)
    case CreateSpace(space, owner) => CreateSpaceTx(db, space, owner)
    case SetUserEnabled(user, enabled) => SetUserEnabledTx(db, user, enabled)
    case PutSpaceMember(space, account, permission) => PutSpaceMemberTx(db, space, account, permission)
    case DeleteSpaceMember(space, account) => DeleteSpaceMemberTx(db, space, account)
  }

  function MountStep(db: Db, e: MountEvent): (after: Db)
    ensures OnlyTakenBack(db, after)
  {
    match e
    case CreateMount(id, space, mode) => CreateMountTx(db, id, space, mode)
    case AutoRegisterMount(id, space, account, mode) => AutoRegisterMountTx(db, id, space, account, mode)
    case UpdateMount(mount, newMode, newPublicShares) => UpdateMountTx(db, mount, newMode, newPublicShares)
    case MarkUnavailable(mount) => MarkUnavailableTx(db, mount)
    case Reverify(mount) => ReverifyTx(db, mount)
    case SoftDeleteMount(mount) => SoftDeleteMountTx(db, mount)
  }

  function GrantStep(db: Db, e: GrantEvent): (after: Db)
    ensures OnlyTakenBack(db, after)
  {
    match e
    case EnsureAutoGrant(mount, space, account) => EnsureAutoGrantTx(db, mount, space, account)
    case PutMountGrant(mount, account, permission) => PutMountGrantTx(db, mount, account, permission)
    case DeleteMountGrant(mount, account) => DeleteMountGrantTx(db, mount, account)
  }

  function CapabilityStep(db: Db, e: CapabilityEvent): (after: Db)
    ensures OnlyTakenBack(db, after)
  {
    match e
    case CreateShare(id, account, space, mount, path) => CreateShareTx(db, id, account, space, mount, path)
    case RevokeSharesById(ids) => RevokeSharesByIdTx(db, ids)
    case CreateUpload(id, account, space, mount) => CreateUploadTx(db, id, account, space, mount)
    case FinishUpload(id, outcome) => FinishUploadTx(db, id, outcome)
    case ExpireUploads(ids) => ExpireUploadsTx(db, ids)
    case CreateToken(id, account, requested) => CreateTokenTx(db, id, account, requested)
    case RevokeToken(id) => RevokeTokenTx(db, id)
    case WithdrawToken(id) => WithdrawTokenTx(db, id)
  }

  /** The new tables. A transaction that finds nothing to do or is refused leaves them alone. */
  function Step(db: Db, e: Event): (after: Db)
    ensures OnlyTakenBack(db, after)
  {
    match e
    case Memberships(m) => MembershipStep(db, m)
    case Mounts(t) => MountStep(db, t)
    case Grants(g) => GrantStep(db, g)
    case Capabilities(c) => CapabilityStep(db, c)
  }

  // ---- The invariant ----

  ghost predicate ShareBacked(db: Db, s: Share)
  {
    && AccountActive(db, s.creator)
    && Member(s.space, s.creator) in db.members && db.members[Member(s.space, s.creator)] == Manager
    && Grantee(s.mount, s.creator) in db.grants && db.grants[Grantee(s.mount, s.creator)] == Manager
    && Live(db, s.mount) && db.mounts[s.mount].space == s.space && db.mounts[s.mount].publicShares
  }

  ghost predicate UploadBacked(db: Db, u: Upload)
  {
    && AccountActive(db, u.account)
    && Member(u.space, u.account) in db.members && db.members[Member(u.space, u.account)] != Viewer
    && Grantee(u.mount, u.account) in db.grants && db.grants[Grantee(u.mount, u.account)] != Viewer
    && Live(db, u.mount) && db.mounts[u.mount].space == u.space && db.mounts[u.mount].mode == ReadWrite
  }

  ghost predicate GrantBacked(db: Db, g: Grantee)
  {
    Live(db, g.mount) && Member(db.mounts[g.mount].space, g.account) in db.members
  }

  ghost predicate BoundaryBacked(db: Db, b: Boundary)
  {
    && b.token in db.tokens
    && Live(db, b.scope.mount) && db.mounts[b.scope.mount].space == b.scope.space
    && Grantee(b.scope.mount, db.tokens[b.token].account) in db.grants
  }

  ghost predicate SharesBacked(db: Db)
  {
    forall id :: id in db.shares && !db.shares[id].revoked ==> ShareBacked(db, db.shares[id])
  }

  ghost predicate UploadsBacked(db: Db)
  {
    forall id :: id in db.uploads && db.uploads[id].status == Running ==> UploadBacked(db, db.uploads[id])
  }

  ghost predicate Sound(db: Db)
  {
    && SharesBacked(db)
    && UploadsBacked(db)
    && (forall g :: g in db.grants ==> GrantBacked(db, g))
    && (forall b :: b in db.boundaries ==> BoundaryBacked(db, b))
    && (forall id :: id in db.tokens && !db.tokens[id].revoked ==> AccountActive(db, db.tokens[id].account))
    && (forall m :: m in db.members ==> m.space in db.spaces && m.account in db.accounts)
    && (forall id :: id in db.mounts ==> db.mounts[id].space in db.spaces)
  }

  ghost predicate SharesTakenBack(before: map<string, Share>, after: map<string, Share>)
  {
    forall id :: id in before ==>
      id in after && (after[id] == before[id] || after[id] == before[id].(revoked := true))
  }

  ghost predicate UploadsTakenBack(before: map<string, Upload>, after: map<string, Upload>)
  {
    forall id :: id in before ==>
      && id in after && (before[id].status != Running ==> after[id] == before[id])
      && after[id].(status := before[id].status) == before[id]
  }

  ghost predicate TokensTakenBack(before: map<string, Token>, after: map<string, Token>)
  {
    forall id :: id in before ==>
      id in after && (after[id] == before[id] || after[id] == before[id].(revoked := true))
  }

  ghost predicate MountsTakenBack(before: map<string, Mount>, after: map<string, Mount>)
  {
    forall id :: id in before ==>
      && id in after && after[id].space == before[id].space
      && (before[id].status == Deleted ==> after[id] == before[id])
  }

  ghost predicate AccountsTakenBack(before: map<string, AccountStatus>, after: map<string, AccountStatus>)
  {
    forall id :: id in before ==> id in after && (before[id] == Removed ==> after[id] == Removed)
  }

  /** Nothing that was taken back ever comes back: revoked shares and tokens stay revoked, uploads
      that ended stay ended the way they did, deleted mounts and removed accounts stay so, and no
      row of these tables is ever pointed at another account, space or mount. */
  ghost predicate OnlyTakenBack(before: Db, after: Db)
  {
    && SharesTakenBack(before.shares, after.shares)
    && UploadsTakenBack(before.uploads, after.uploads)
    && TokensTakenBack(before.tokens, after.tokens)
    && MountsTakenBack(before.mounts, after.mounts)
    && AccountsTakenBack(before.accounts, after.accounts)
  }

  // ---- Runs ----

  function Run(db: Db, events: seq<Event>): Db
    decreases events
  {
    if events == [] then db else Run(Step(db, events[0]), events[1..])
  }

  // ---- Updates that are not serialised ----

  /** `renameMount` with a row that was loaded earlier: what the request leaves out is written back
      as it was then, while only what the request names triggers revocation. */
  function StaleUpdateMount(db: Db, mount: string, loaded: Mount, newMode: Option<Mode>, newPublicShares: Option<bool>): Db
    requires Live(db, mount)
  {
    var mode := if newMode.Some? then newMode.value else loaded.mode;
    var publicShares := if newPublicShares.Some? then newPublicShares.value else loaded.publicShares;
    db.(mounts := db.mounts[mount := db.mounts[mount].(mode := mode, publicShares := publicShares)],
        shares := if newPublicShares == Some(false) then RevokeShares(db.shares, OnMount(mount)) else db.shares,
        uploads := if newMode == Some(ReadOnly) then CancelUploads(db.uploads, OnMount(mount)) else db.uploads)
  }

  /** The update at the end of `completeUpload` and `cancelUpload`, which looked at the session's
      status when the request came in and does not look again. */
  function StaleFinishUpload(db: Db, id: string, outcome: UploadStatus): Db
    requires id in db.uploads
  {
    db.(uploads := db.uploads[id := db.uploads[id].(status := outcome)])
  }
}
