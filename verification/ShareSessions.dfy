/** Visits to a public share: `Exchange` turns the share's secret into a session, `VerifySession`
    reads one, `IncrementDownload` counts. Whether the creator's authority still backs the share is
    what the joins decide; it is an input here (`backed`). */
module ShareSessions {
  import opened Timestamps

  datatype Option<+T> = None | Some(value: T)

  datatype Share = Share(expires: Instant, revoked: bool, generation: nat, passwordSet: bool,
                         maxVisits: Option<nat>, usedVisits: nat, maxDownloads: Option<nat>, usedDownloads: nat)
  datatype Session = Session(generation: nat, created: Instant, expires: Instant, revoked: bool)

  datatype Result = Issued(id: string, expires: Instant) | PasswordRequired | Unavailable

  predicate Within(used: nat, limit: Option<nat>)
  {
    limit == None || used <= limit.value
  }

  class Store {
    var share: Share
    var sessions: map<string, Session>
    /** Every session id ever handed out. */
    ghost var issued: set<string>

    /** No limit is passed, each visit counted handed out one session, and no session outlives the
        share. */
    ghost predicate Valid()
      reads this
    {
      && Within(share.usedVisits, share.maxVisits) && Within(share.usedDownloads, share.maxDownloads)
      && share.usedVisits == |issued|
      && sessions.Keys <= issued
      && forall id :: id in sessions ==>
           && Before(sessions[id].created, sessions[id].expires)
           && !Before(share.expires, sessions[id].expires)
           && sessions[id].generation <= share.generation
    }

    constructor (share: Share)
      requires share.usedVisits == 0 && share.usedDownloads == 0
      ensures Valid() && this.share == share
    {
      this.share := share;
      sessions := map[];
      issued := {};
    }

    /** `Exchange` with `createSession`. `horizon` is the clock plus the session's lifetime, `id` is
        drawn at random; `secretFits` and `passwordFits` are the hash comparisons. */
    method Exchange(now: Instant, horizon: Instant, id: string, backed: bool, secretFits: bool,
                    passwordGiven: bool, passwordFits: bool)
      returns (r: Result)
      requires Valid() && id !in issued
      requires Proper(now) && Proper(horizon) && Proper(share.expires) && Before(now, horizon)
      modifies this
      ensures Valid()
      ensures r.Issued? <==>
        && backed && secretFits && !old(share).revoked && Before(now, old(share).expires)
        && SqlLive(now, old(share).expires)
        && (old(share).passwordSet ==> passwordGiven && passwordFits)
        && (old(share).maxVisits == None || old(share).usedVisits < old(share).maxVisits.value)
      ensures r.Issued? ==>
        && r.id == id && Before(now, r.expires)
        && r.expires == (if Before(old(share).expires, horizon) then old(share).expires else horizon)
        && share == old(share).(usedVisits := old(share).usedVisits + 1)
        && sessions == old(sessions)[id := Session(share.generation, now, r.expires, false)]
        && issued == old(issued) + {id}
      ensures r == PasswordRequired <==>
        && backed && secretFits && !old(share).revoked && Before(now, old(share).expires)
        && old(share).passwordSet && !passwordGiven
      ensures !r.Issued? ==> share == old(share) && sessions == old(sessions) && issued == old(issued)
    {
      if !backed { return Unavailable; }
      if share.revoked || !Before(now, share.expires) || !secretFits { return Unavailable; }
      if share.passwordSet {
        if !passwordGiven { return PasswordRequired; }
        if !passwordFits { return Unavailable; }
      }
      var expires := horizon;
      if Before(share.expires, expires) { expires := share.expires; }
      if !Before(now, expires) { return Unavailable; }
      if share.revoked || !SqlLive(now, share.expires)
         || !(share.maxVisits == None || share.usedVisits < share.maxVisits.value)
      {
        return Unavailable;
      }
      share := share.(usedVisits := share.usedVisits + 1);
      sessions := sessions[id := Session(share.generation, now, expires, false)];
      issued := issued + {id};
      return Issued(id, expires);
    }

    /** `VerifySession`. */
    method VerifySession(now: Instant, id: string, backed: bool) returns (ok: bool)
      requires Valid()
      ensures ok <==>
        && id in sessions && backed && !sessions[id].revoked && !share.revoked
        && Before(now, sessions[id].expires) && Before(now, share.expires)
        && sessions[id].generation == share.generation
    {
      if id !in sessions || !backed { return false; }
      var session := sessions[id];
      if session.revoked || share.revoked { return false; }
      if !Before(now, session.expires) || !Before(now, share.expires) { return false; }
      return session.generation == share.generation;
    }

    /** `IncrementDownload`. */
    method IncrementDownload(now: Instant, generation: nat, backed: bool) returns (ok: bool)
      requires Valid()
      modifies this`share
      ensures Valid()
      ensures ok <==>
        && !old(share).revoked && SqlLive(now, old(share).expires) && generation == old(share).generation && backed
        && (old(share).maxDownloads == None || old(share).usedDownloads < old(share).maxDownloads.value)
      ensures share == if ok then old(share).(usedDownloads := old(share).usedDownloads + 1) else old(share)
    {
      if share.revoked || !SqlLive(now, share.expires) || generation != share.generation || !backed
         || !(share.maxDownloads == None || share.usedDownloads < share.maxDownloads.value)
      {
        return false;
      }
      share := share.(usedDownloads := share.usedDownloads + 1);
      return true;
    }

    /** The share half of the sweep in `expireOperationalRows`. */
    method Sweep(now: Instant)
      requires Valid()
      modifies this`sessions
      ensures Valid()
      ensures forall id :: id in sessions <==> id in old(sessions) && SqlLive(now, old(sessions)[id].expires)
      ensures forall id :: id in sessions ==> sessions[id] == old(sessions)[id]
    {
      sessions := map id | id in sessions && SqlLive(now, sessions[id].expires) :: sessions[id];
    }

    method Revoke()
      requires Valid()
      modifies this`share
      ensures Valid() && share == old(share).(revoked := true)
    {
      share := share.(revoked := true);
    }
  }

  /** The sweep may take a session early, but only within its last second. */
  lemma SweptEarlyOnlyInLastSecond(now: Instant, expires: Instant)
    requires Proper(now) && Proper(expires) && Before(now, expires) && !SqlLive(now, expires)
    ensures SameSecond(now, expires) && Digits(now) <= Digits(expires)
  {
    ExpiryTestsAgreeIff(now, expires);
    if SameSecond(now, expires) {
      LaterIsNoPrefix(now, expires);
    }
  }
}
