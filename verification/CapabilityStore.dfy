/** The handlers' transactions, statement by statement. Each works on `tx`, a private copy of the
    tables, and publishes it on commit; every early return is a rollback. A statement may fail for
    reasons outside the model (`DbError`). */
module CapabilityStore {
  import opened Capabilities

  datatype Outcome = Done | NotFound | Invalid | DbError

  class Database {
    var tables: Db
    /** No statement fails for reasons outside the model. */
    const steady: bool

    constructor (steady: bool)
      ensures tables == EMPTY && this.steady == steady
    {
      tables := EMPTY;
      this.steady := steady;
    }

    /** `setAdminUserEnabled`. */
    method SetUserEnabled(user: string, enabled: bool) returns (outcome: Outcome)
      modifies this
      ensures outcome == DbError ==> tables == old(tables)
      ensures outcome != DbError ==> tables == SetUserEnabledTx(old(tables), user, enabled)
      ensures outcome == NotFound ==> user !in old(tables).accounts || old(tables).accounts[user] == Removed
      ensures outcome == Done ==> user in tables.accounts && tables.accounts[user] == if enabled then Enabled else Disabled
      ensures outcome != Invalid
      ensures steady ==> outcome != DbError
    {
      var tx := tables;
      if !steady { if * { return DbError; } }
      if user !in tx.accounts || tx.accounts[user] == Removed { return NotFound; }
      tx := tx.(accounts := tx.accounts[user := if enabled then Enabled else Disabled]);
      if !enabled {
        if !steady { if * { return DbError; } }
        tx := tx.(shares := RevokeShares(tx.shares, OfAccount(user)));
        if !steady { if * { return DbError; } }
        tx := tx.(tokens := RevokeTokens(tx.tokens, user));
        if !steady { if * { return DbError; } }
        tx := tx.(uploads := CancelUploads(tx.uploads, OfAccount(user)));
      }
      if !steady { if * { return DbError; } }
      tables := tx;
      return Done;
    }

    /** `putAdminSpaceMember`; the foreign keys refuse an unknown space or account. */
    method PutSpaceMember(space: string, account: string, permission: Permission) returns (outcome: Outcome)
      modifies this
      ensures outcome == DbError ==> tables == old(tables)
      ensures outcome == Done ==> tables == PutSpaceMemberTx(old(tables), space, account, permission)
      ensures outcome == Done ==>
        Member(space, account) in tables.members && tables.members[Member(space, account)] == permission
      ensures outcome in {Done, DbError}
      ensures steady && space in old(tables).spaces && account in old(tables).accounts ==> outcome == Done
    {
      var tx := tables;
      if space !in tx.spaces || account !in tx.accounts { return DbError; }
      if !steady { if * { return DbError; } }
      tx := tx.(members := tx.members[Member(space, account) := permission]);
      if permission != Manager {
        if !steady { if * { return DbError; } }
        tx := tx.(shares := RevokeShares(tx.shares, InSpace(space, account)));
      }
      if permission == Viewer {
        if !steady { if * { return DbError; } }
        tx := tx.(uploads := CancelUploads(tx.uploads, InSpace(space, account)));
      }
      if !steady { if * { return DbError; } }
      tables := tx;
      return Done;
    }

    /** `deleteAdminSpaceMember`: everything that hangs on the membership goes first, and comes
        back with the rollback when it turns out that there was no membership. */
    method DeleteSpaceMember(space: string, account: string) returns (outcome: Outcome)
      modifies this
      ensures outcome == DbError ==> tables == old(tables)
      ensures outcome != DbError ==> tables == DeleteSpaceMemberTx(old(tables), space, account)
      ensures outcome == Done ==> Member(space, account) in old(tables).members
      ensures outcome == NotFound ==> Member(space, account) !in old(tables).members && tables == old(tables)
      ensures Member(space, account) in tables.members ==> outcome == DbError
      ensures outcome != Invalid
      ensures steady ==> outcome != DbError
    {
      var tx := tables;
      if !steady { if * { return DbError; } }
      tx := tx.(grants := DropGrants(tx.grants, tx.mounts, InSpace(space, account)));
      if !steady { if * { return DbError; } }
      tx := tx.(shares := RevokeShares(tx.shares, InSpace(space, account)));
      if !steady { if * { return DbError; } }
      tx := tx.(uploads := CancelUploads(tx.uploads, InSpace(space, account)));
      if !steady { if * { return DbError; } }
      tx := tx.(boundaries := DropBoundaries(tx.boundaries, tx.tokens, InSpace(space, account)));
      if !steady { if * { return DbError; } }
      if Member(space, account) !in tx.members { return NotFound; }
      tx := tx.(members := tx.members - {Member(space, account)});
      if !steady { if * { return DbError; } }
      tables := tx;
      return Done;
    }

    /** `renameMount` with the row it loaded before the transaction began. */
    method UpdateMount(mount: string, loaded: Mount, newMode: Option<Mode>, newPublicShares: Option<bool>)
      returns (outcome: Outcome)
      modifies this
      ensures outcome in {DbError, NotFound} ==> tables == old(tables)
      ensures outcome == NotFound ==> !Live(old(tables), mount)
      ensures outcome == Done ==>
        Live(old(tables), mount) && tables == StaleUpdateMount(old(tables), mount, loaded, newMode, newPublicShares)
      ensures outcome != Invalid
      ensures steady ==> outcome != DbError
    {
      var mode := loaded.mode;
      if newMode.Some? { mode := newMode.value; }
      var publicShares := loaded.publicShares;
      if newPublicShares.Some? { publicShares := newPublicShares.value; }
      var tx := tables;
      if !steady { if * { return DbError; } }
      if mount !in tx.mounts || tx.mounts[mount].status == Deleted { return NotFound; }
      tx := tx.(mounts := tx.mounts[mount := tx.mounts[mount].(mode := mode, publicShares := publicShares)]);
      if newPublicShares == Some(false) {
        if !steady { if * { return DbError; } }
        tx := tx.(shares := RevokeShares(tx.shares, OnMount(mount)));
      }
      if newMode == Some(ReadOnly) {
        if !steady { if * { return DbError; } }
        tx := tx.(uploads := CancelUploads(tx.uploads, OnMount(mount)));
      }
      if !steady { if * { return DbError; } }
      tables := tx;
      return Done;
    }

    /** `softDeleteMount`. */
    method SoftDeleteMount(mount: string) returns (outcome: Outcome)
      modifies this
      ensures outcome == DbError ==> tables == old(tables)
      ensures outcome != DbError ==> tables == SoftDeleteMountTx(old(tables), mount)
      ensures outcome == NotFound <==> outcome != DbError && !Live(old(tables), mount)
      ensures outcome != Invalid
      ensures steady ==> outcome != DbError
    {
      var tx := tables;
      if !steady { if * { return DbError; } }
      if mount !in tx.mounts || tx.mounts[mount].status == Deleted { return NotFound; }
      tx := tx.(mounts := tx.mounts[mount := tx.mounts[mount].(status := Deleted)]);
      if !steady { if * { return DbError; } }
      tx := tx.(shares := RevokeShares(tx.shares, OnMount(mount)));
      if !steady { if * { return DbError; } }
      tx := tx.(boundaries := DropBoundariesOn(tx.boundaries, mount));
      if !steady { if * { return DbError; } }
      tx := tx.(grants := DropGrants(tx.grants, tx.mounts, OnMount(mount)));
      assert tx.grants == DropGrants(tables.grants, tables.mounts, OnMount(mount));
      if !steady { if * { return DbError; } }
      tx := tx.(uploads := CancelUploads(tx.uploads, OnMount(mount)));
      if !steady { if * { return DbError; } }
      tables := tx;
      return Done;
    }

    /** The four statements that take an account's grant on a mount back. */
    method TakeGrantBack(tx: Db, mount: string, account: string) returns (after: Option<Db>)
      ensures after.Some? ==> after.value == WithoutGrant(tx, mount, account)
      ensures steady ==> after.Some?
    {
      var t := tx;
      if !steady { if * { return None; } }
      t := t.(grants := t.grants - {Grantee(mount, account)});
      if !steady { if * { return None; } }
      t := t.(shares := RevokeShares(t.shares, OnMountOf(mount, account)));
      if !steady { if * { return None; } }
      t := t.(uploads := CancelUploads(t.uploads, OnMountOf(mount, account)));
      if !steady { if * { return None; } }
      t := t.(boundaries := DropBoundaries(t.boundaries, t.tokens, OnMountOf(mount, account)));
      return Some(t);
    }

    /** The statements of `putAdminMountGrant` for an active member of the mount's space: the grant,
        and what the member may then no longer hold. */
    method StoreGrant(tx: Db, mount: string, account: string, permission: Permission) returns (after: Option<Db>)
      requires Live(tx, mount) && tx.mounts[mount].space in tx.spaces && AccountActive(tx, account)
      requires Member(tx.mounts[mount].space, account) in tx.members
      ensures after.Some? ==> after.value == PutMountGrantTx(tx, mount, account, permission)
      ensures steady ==> after.Some?
    {
      var t := tx;
      if !steady { if * { return None; } }
      t := t.(grants := t.grants[Grantee(mount, account) := permission]);
      if !steady { if * { return None; } }
      var inSpace := t.members[Member(t.mounts[mount].space, account)];
      if permission != Manager || inSpace != Manager {
        if !steady { if * { return None; } }
        t := t.(shares := RevokeShares(t.shares, OnMountOf(mount, account)));
      }
      if permission == Viewer || inSpace == Viewer {
        if !steady { if * { return None; } }
        t := t.(uploads := CancelUploads(t.uploads, OnMountOf(mount, account)));
      }
      return Some(t);
    }

    /** `putAdminMountGrant`. When the insert picks no row the grant and what hangs on it are
        taken back, and that is committed, before the request is refused. */
    method PutMountGrant(mount: string, account: string, permission: Permission) returns (outcome: Outcome)
      modifies this
      ensures outcome == DbError ==> tables == old(tables)
      ensures outcome != DbError ==> tables == PutMountGrantTx(old(tables), mount, account, permission)
      ensures outcome == NotFound <==> outcome != DbError && !Live(old(tables), mount)
      ensures outcome == Done ==>
        Grantee(mount, account) in tables.grants && tables.grants[Grantee(mount, account)] == permission
      ensures outcome == Invalid ==> Grantee(mount, account) !in tables.grants
      ensures steady ==> outcome != DbError
    {
      if mount !in tables.mounts || tables.mounts[mount].status == Deleted { return NotFound; }
      var member := Member(tables.mounts[mount].space, account);
      if member.space !in tables.spaces || member !in tables.members || !AccountActive(tables, account) {
        if !steady { if * { return DbError; } }
        var after := TakeGrantBack(tables, mount, account);
        if after == None { return DbError; }
        tables := after.value;
        return Invalid;
      }
      var after := StoreGrant(tables, mount, account, permission);
      if after == None { return DbError; }
      if !steady { if * { return DbError; } }
      tables := after.value;
      return Done;
    }

    /** `deleteAdminMountGrant`. */
    method DeleteMountGrant(mount: string, account: string) returns (outcome: Outcome)
      modifies this
      ensures outcome == DbError ==> tables == old(tables)
      ensures outcome != DbError ==> tables == DeleteMountGrantTx(old(tables), mount, account)
      ensures outcome == NotFound <==>
        outcome != DbError && (!Live(old(tables), mount) || Grantee(mount, account) !in old(tables).grants)
      ensures outcome != Invalid
      ensures steady ==> outcome != DbError
    {
      if mount !in tables.mounts || tables.mounts[mount].status == Deleted { return NotFound; }
      if Grantee(mount, account) !in tables.grants { return NotFound; }
      var after := TakeGrantBack(tables, mount, account);
      if after == None { return DbError; }
      tables := after.value;
      return Done;
    }

    /** `aitoken.Create`: one boundary row after another, and none at all if one is refused. */
    method CreateToken(id: string, account: string, requested: seq<Scope>) returns (outcome: Outcome)
      modifies this
      ensures outcome in {DbError, Invalid} ==> tables == old(tables)
      ensures outcome != DbError ==> tables == CreateTokenTx(old(tables), id, account, requested)
      ensures outcome == Done ==> id in tables.tokens && !tables.tokens[id].revoked
      ensures outcome == Done ==>
        forall scope :: scope in requested ==> Authorize(old(tables), account, scope.space, scope.mount, Read)
      ensures outcome != NotFound
      ensures steady && id !in old(tables).tokens ==> outcome != DbError
    {
      if requested == [] { return Invalid; }
      var tx := tables;
      if id in tx.tokens { return DbError; }
      if !steady { if * { return DbError; } }
      if !AccountActive(tx, account) { return Invalid; }
      tx := tx.(tokens := tx.tokens[id := Token(account, false)]);
      ghost var issued := tx;
      var i := 0;
      while i < |requested|
        invariant 0 <= i <= |requested|
        invariant tx == issued.(boundaries := tx.boundaries)
        invariant tx.boundaries == old(tables).boundaries + set scope | scope in requested[..i] :: Boundary(id, scope)
        invariant forall scope :: scope in requested[..i] ==> BoundarySource(old(tables), account, scope)
      {
        if !steady { if * { return DbError; } }
        assert BoundarySource(tx, account, requested[i]) == BoundarySource(old(tables), account, requested[i]);
        if !BoundarySource(tx, account, requested[i]) { return Invalid; }
        tx := tx.(boundaries := tx.boundaries + {Boundary(id, requested[i])});
        assert requested[..i + 1] == requested[..i] + [requested[i]];
        i := i + 1;
      }
      assert requested[..i] == requested;
      if !steady { if * { return DbError; } }
      tables := tx;
      return Done;
    }

    /** The clean-up of `createAIToken`: the token it has just issued is revoked and left without
        boundaries. */
    method WithdrawToken(id: string) returns (outcome: Outcome)
      modifies this
      ensures outcome in {Done, DbError}
      ensures outcome == DbError ==> tables == old(tables)
      ensures outcome == Done ==> tables == WithdrawTokenTx(old(tables), id)
      ensures outcome == Done && id in old(tables).tokens ==>
        id in tables.tokens && tables.tokens[id] == old(tables).tokens[id].(revoked := true)
      ensures outcome == Done ==>
        && tables == old(tables).(tokens := tables.tokens, boundaries := tables.boundaries)
        && (forall other :: other != id ==> (other in tables.tokens <==> other in old(tables).tokens))
        && (forall other :: other in old(tables).tokens && other != id ==> tables.tokens[other] == old(tables).tokens[other])
        && (forall b :: b in tables.boundaries <==> b in old(tables).boundaries && b.token != id)
      ensures steady ==> outcome != DbError
    {
      var tx := tables;
      if !steady { if * { return DbError; } }
      if id in tx.tokens && !tx.tokens[id].revoked {
        tx := tx.(tokens := tx.tokens[id := tx.tokens[id].(revoked := true)]);
      }
      if !steady { if * { return DbError; } }
      tx := tx.(boundaries := set b | b in tx.boundaries && b.token != id);
      if !steady { if * { return DbError; } }
      assert tx.tokens == RevokeTokenTx(tables, id).tokens;
      tables := tx;
      return Done;
    }
  }
}
