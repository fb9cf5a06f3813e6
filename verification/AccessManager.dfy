/**
 The access manager (internal/access/access.go). Its state is what the state file holds between
 operations; each operation runs under the lock, so it is one step.
 */
module AccessManagers {
  import opened AccessSpec
  import opened KeyedLists
  import opened Options
  import opened Sorting

  function OpeningTime(r: Request): int {
    r.createdAt
  }

  class Manager {
    const root: string
    var requests: seq<Request>
    var leases: seq<Lease>
    var grants: seq<Grant>

    ghost function Stored(): State
      reads this
    {
      State(requests, leases, grants)
    }

    constructor (root: string)
      ensures this.root == root && Stored() == EMPTY
    {
      this.root := root;
      requests, leases, grants := [], [], [];
    }

    method CreateRequest(candidate: Request, freshId: string, now: int) returns (outcome: Outcome)
      modifies this
      ensures (Stored(), outcome) == Next(old(Stored()), root, Event(now, Create(candidate, freshId)))
    {
      hide SameRequest, Expire, ExpiredAt;
      var rs := ExpireAll(requests, now);
      var pending := 0;
      for i := 0 to |rs|
        invariant pending == PendingCount(rs[..i], candidate.session)
        invariant FirstSame(rs, candidate, 0) == FirstSame(rs, candidate, i)
        invariant Stored() == old(Stored())
      {
        assert rs[..i + 1][..i] == rs[..i];
        if rs[i].session == candidate.session && rs[i].status == Pending {
          pending := pending + 1;
          if SameRequest(rs[i], candidate) {
            requests := rs;
            return Created(rs[i]);
          }
        }
      }
      assert rs[..|rs|] == rs;
      if pending >= MAX_PENDING_SESSION {
        return Refused(TooManyPending);
      }
      var r := candidate.(id := freshId, status := Pending, createdAt := now, expiresAt := now + DEFAULT_REQUEST_TTL,
                          resolvedAt := None, resulting := "");
      requests := rs + [r];
      return Created(r);
    }

    /** Marks stale pending requests as expired. */
    static method ExpireAll(requests: seq<Request>, now: int) returns (rs: seq<Request>)
      ensures rs == Expire(requests, now)
    {
      rs := requests;
      for i := 0 to |requests|
        invariant |rs| == |requests|
        invariant forall j :: 0 <= j < i ==> rs[j] == ExpiredAt(requests[j], now)
        invariant forall j :: i <= j < |rs| ==> rs[j] == requests[j]
      {
        if rs[i].status == Pending && now >= rs[i].expiresAt {
          rs := rs[i := rs[i].(status := Expired, resolvedAt := Some(now))];
        }
      }
    }

    /** Finds the pending request that a resolution applies to. */
    static method FindPending(rs: seq<Request>, id: string, kind: Option<Kind>) returns (k: nat, error: Option<Error>)
      ensures error == Resolvable(rs, id, kind)
      ensures error == None ==> k == IndexOf(rs, RequestId, id) && k < |rs|
    {
      for i := 0 to |rs|
        invariant forall j :: 0 <= j < i ==> rs[j].id != id
      {
        if rs[i].id != id {
          continue;
        }
        assert IndexOf(rs, RequestId, id) == i;
        if rs[i].status != Pending {
          return i, Some(NotPending);
        }
        if kind.Some? && rs[i].kind != kind.value {
          return i, Some(WrongKind);
        }
        return i, None;
      }
      return |rs|, Some(NotFound);
    }

    /** The storage commit runs under the lock, between the pending check and the state write. */
    method FulfillSecretWith(id: string, commitSucceeds: bool, now: int) returns (outcome: Outcome)
      modifies this
      ensures (Stored(), outcome) == Next(old(Stored()), root, Event(now, FulfillSecret(id, commitSucceeds)))
    {
      outcome := ResolvePlainly(id, Some(SecretKind), Fulfilled, commitSucceeds, now);
    }

    method DenyRequest(id: string, now: int) returns (outcome: Outcome)
      modifies this
      ensures (Stored(), outcome) == Next(old(Stored()), root, Event(now, Deny(id)))
    {
      outcome := ResolvePlainly(id, None, Denied, true, now);
    }

    method ResolvePlainly(id: string, kind: Option<Kind>, status: Status, commits: bool, now: int)
      returns (outcome: Outcome)
      modifies this
      ensures (Stored(), outcome) == ResolvePlain(old(Stored()), id, kind, status, commits, now)
    {
      var rs := ExpireAll(requests, now);
      var k, error := FindPending(rs, id, kind);
      if error.Some? {
        return Refused(error.value);
      }
      if !commits {
        return Refused(CommitFailed);
      }
      requests := rs[k := rs[k].(status := status, resolvedAt := Some(now))];
      return Resolved(id, status);
    }

    method Approve(id: string, ttl: int, freshId: string, now: int) returns (outcome: Outcome)
      modifies this
      ensures (Stored(), outcome) == Next(old(Stored()), root, Event(now, ApproveLease(id, ttl, freshId)))
      ensures outcome.GotLease? && ttl > 0 ==> outcome.lease.expiresAt == now + ttl
      ensures ttl > 24 * 3600 * SECOND ==> outcome.Refused?
    {
      hide Expire, ExpiredAt, IndexOf, Resolvable;
      var rs := ExpireAll(requests, now);
      var k, error := FindPending(rs, id, Some(LeaseKind));
      if error.Some? {
        return Refused(error.value);
      }
      var chosen := ttl;
      if chosen <= 0 {
        chosen := rs[k].requestedTtl;
      }
      if chosen <= 0 {
        chosen := DEFAULT_LEASE_TTL;
      }
      if chosen > MAX_LEASE_TTL {
        return Refused(TtlTooLong);
      }
      var lease := Lease(freshId, rs[k].id, rs[k].session, rs[k].environment, rs[k].commands, now, now + chosen, None);
      requests := rs[k := rs[k].(status := Approved, resolvedAt := Some(now), resulting := lease.id)];
      leases := leases + [lease];
      return GotLease(lease);
    }

    method ApproveWorkspaceRequest(id: string, ttl: int, freshId: string, now: int) returns (outcome: Outcome)
      modifies this
      ensures (Stored(), outcome) == Next(old(Stored()), root, Event(now, ApproveWorkspace(id, ttl, freshId)))
      ensures outcome.GotGrant? && ttl > 0 ==> outcome.grant.expiresAt == now + ttl
      ensures ttl > 24 * 3600 * SECOND ==> outcome.Refused?
    {
      hide Expire, ExpiredAt, IndexOf, Resolvable;
      var rs := ExpireAll(requests, now);
      var k, error := FindPending(rs, id, Some(WorkspaceKind));
      if error.Some? {
        return Refused(error.value);
      }
      var chosen := ttl;
      if chosen <= 0 {
        chosen := rs[k].requestedTtl;
      }
      if chosen <= 0 {
        chosen := DEFAULT_WORKSPACE_TTL;
      }
      if chosen > MAX_LEASE_TTL {
        return Refused(TtlTooLong);
      }
      var grant := Grant(freshId, rs[k].id, rs[k].session, root, rs[k].environment, now, now + chosen, None, None);
      requests := rs[k := rs[k].(status := Approved, resolvedAt := Some(now), resulting := grant.id)];
      grants := grants + [grant];
      return GotGrant(grant);
    }

    /** All requests, the newest first; requests of one time come in no particular order. */
    method Requests(now: int) returns (all: seq<Request>)
      modifies this
      ensures (Stored(), Done) == Next(old(Stored()), root, Event(now, ListRequests))
      ensures multiset(all) == multiset(requests) && Descending(all, OpeningTime)
    {
      requests := ExpireAll(requests, now);
      all := SortDown(requests, OpeningTime);
    }

    method Authorize(session: string, environment: string, command: string, now: int) returns (ok: bool)
      ensures ok <==> Authorized(Stored(), session, environment, command, now)
    {
      for i := 0 to |leases|
        invariant forall k :: 0 <= k < i ==> !Authorizes(leases[k], session, environment, command, now)
      {
        var lease := leases[i];
        if lease.session != session || lease.environment != environment || lease.revokedAt.Some?
            || now >= lease.expiresAt {
          continue;
        }
        if command in lease.commands {
          return true;
        }
      }
      return false;
    }

    method RevokeLease(id: string, session: string, now: int) returns (outcome: Outcome)
      modifies this
      ensures (Stored(), outcome) == Next(old(Stored()), root, Event(now, Revoke(id, session)))
    {
      for i := 0 to |leases|
        invariant Stored() == old(Stored())
        invariant forall j :: 0 <= j < i ==> leases[j].id != id
      {
        if leases[i].id != id {
          continue;
        }
        assert IndexOf(leases, LeaseId, id) == i;
        if session != "" && leases[i].session != session {
          return Refused(Unauthorized);
        }
        if leases[i].revokedAt == None {
          leases := leases[i := leases[i].(revokedAt := Some(now))];
        } else {
          assert leases[i := leases[i].(revokedAt := leases[i].revokedAt)] == leases;
        }
        return Done;
      }
      return Refused(NotFound);
    }

    /** The first grant that lets the session work in the environment. */
    method AuthorizeWorkspace(session: string, environment: string, now: int) returns (grant: Option<Grant>)
      ensures grant.Some? <==> WorkspaceAuthorized(Stored(), root, session, environment, now)
      ensures grant.Some? ==> grant.value in grants && AuthorizesWorkspace(grant.value, root, session, environment, now)
    {
      for i := 0 to |grants|
        invariant forall k :: 0 <= k < i ==> !AuthorizesWorkspace(grants[k], root, session, environment, now)
      {
        var g := grants[i];
        if g.session == session && g.root == root && g.environment == environment
           && g.pausedAt == None && g.revokedAt == None && now < g.expiresAt {
          return Some(g);
        }
      }
      return None;
    }

    method PauseWorkspace(id: string, paused: bool, now: int) returns (outcome: Outcome)
      modifies this
      ensures (Stored(), outcome) == Next(old(Stored()), root, Event(now, Pause(id, paused)))
    {
      for i := 0 to |grants|
        invariant Stored() == old(Stored())
        invariant forall j :: 0 <= j < i ==> grants[j].id != id
      {
        if grants[i].id != id {
          continue;
        }
        assert IndexOf(grants, GrantId, id) == i;
        if grants[i].revokedAt.Some? {
          return Refused(Unauthorized);
        }
        if paused {
          grants := grants[i := grants[i].(pausedAt := Some(now))];
        } else {
          grants := grants[i := grants[i].(pausedAt := None)];
        }
        return Done;
      }
      return Refused(NotFound);
    }

    method ExtendWorkspace(id: string, ttl: int, now: int) returns (outcome: Outcome)
      modifies this
      ensures (Stored(), outcome) == Next(old(Stored()), root, Event(now, Extend(id, ttl)))
    {
      if ttl <= 0 || ttl > MAX_LEASE_TTL {
        return Refused(BadTtl);
      }
      for i := 0 to |grants|
        invariant Stored() == old(Stored())
        invariant forall j :: 0 <= j < i ==> grants[j].id != id
      {
        if grants[i].id != id {
          continue;
        }
        assert IndexOf(grants, GrantId, id) == i;
        if grants[i].revokedAt.Some? {
          return Refused(Unauthorized);
        }
        grants := grants[i := grants[i].(expiresAt := now + ttl)];
        return Done;
      }
      return Refused(NotFound);
    }

    method RevokeWorkspaceGrant(id: string, now: int) returns (outcome: Outcome)
      modifies this
      ensures (Stored(), outcome) == Next(old(Stored()), root, Event(now, RevokeWorkspace(id)))
    {
      for i := 0 to |grants|
        invariant Stored() == old(Stored())
        invariant forall j :: 0 <= j < i ==> grants[j].id != id
      {
        if grants[i].id != id {
          continue;
        }
        assert IndexOf(grants, GrantId, id) == i;
        if grants[i].revokedAt == None {
          grants := grants[i := grants[i].(revokedAt := Some(now))];
        } else {
          assert grants[i := grants[i].(revokedAt := grants[i].revokedAt)] == grants;
        }
        return Done;
      }
      return Refused(NotFound);
    }
  }
}
