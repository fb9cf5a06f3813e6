/** Why a session may act: the steps of the run behind every authorization. */
module AccessTheorems {
  import opened AccessSpec
  import opened KeyedLists
  import opened Options
  import Grants = AccessGrants
  import opened AccessRequests
  import opened AccessRuns

  /** Step i approves the request that step c opened, within the request's lifetime. */
  ghost predicate Approves(log: seq<Step>, c: nat, i: nat, kind: Kind, session: string, environment: string) {
    && c < i < |log| && log[c].outcome.Created? && log[c].event.op.Create?
    && var r := log[c].outcome.request;
       && r.kind == kind && r.session == session && r.environment == environment
       && Resolves(log[i], r.id) && log[i].event.now < log[c].event.now + DEFAULT_REQUEST_TTL
  }

  /**
   A session that may run a command opened a request listing it in that environment; the request was
   approved in time, less than a day before now, and the lease was never revoked.
   */
  lemma LeaseStory(root: string, events: seq<Event>, session: string, environment: string, command: string, now: int)
    returns (c: nat, i: nat)
    requires FreshIds(events) && Authorized(After(root, events), session, environment, command, now)
    ensures var log := Log(root, events);
            && Approves(log, c, i, LeaseKind, session, environment)
            && command in log[c].outcome.request.commands
            && log[i].outcome.GotLease?
            && !Revoked(log, log[i].outcome.lease.id)
            && now < log[i].event.now + MAX_LEASE_TTL
  {
    hide Next, After, Log, FreshIds, Revoked;
    AuthorizedMeansPermitted(root, events, session, environment, command, now);
    var log := Log(root, events);
    i :| Permits(log, i, session, environment, command, now);
    c := AnswersARequest(root, events, i, log[i].outcome.lease.requestId);
  }

  lemma {:induction false} LogAt(root: string, events: seq<Event>, i: nat)
    requires i < |events|
    ensures Log(root, events)[i] == Taken(After(root, events[..i]), root, events[i])
  {
    hide Next, Taken;
    var before := events[..|events| - 1];
    if i < |before| {
      assert before[..i] == events[..i];
      LogAt(root, before, i);
    }
  }

  lemma ExtensionIsBounded(root: string, events: seq<Event>, i: nat)
    requires i < |events|
    ensures var step := Log(root, events)[i];
            step.event.op.Extend? && step.outcome == Done ==> 0 < step.event.op.ttl <= MAX_LEASE_TTL
  {
    hide After, Log, IndexOf;
    LogAt(root, events, i);
  }

  lemma RenewalIsBounded(root: string, events: seq<Event>, i: nat, id: string)
    requires FreshIds(events) && i < |events| && Grants.Renews(Log(root, events)[i], id)
    ensures Grants.RenewedUntil(Log(root, events)[i]) <= Log(root, events)[i].event.now + MAX_LEASE_TTL
  {
    hide After, Log, Next, FreshIds;
    var step := Log(root, events)[i];
    if step.outcome.GotGrant? {
      var c := AnswersARequest(root, events, i, step.outcome.grant.requestId);
    } else {
      ExtensionIsBounded(root, events, i);
    }
  }

  /**
   A session that may work in an environment opened a workspace request there, by step c; step i approved
   it in time; no step revoked the grant; no pause is the last word on it; and step r, the last to approve
   or extend it, was less than a day before now.
   */
  lemma WorkspaceStory(root: string, events: seq<Event>, session: string, environment: string, now: int)
    returns (c: nat, i: nat, r: nat)
    requires FreshIds(events) && WorkspaceAuthorized(After(root, events), root, session, environment, now)
    ensures Approves(Log(root, events), c, i, WorkspaceKind, session, environment)
    ensures Log(root, events)[i].outcome.GotGrant?
    ensures var log, id := Log(root, events), Log(root, events)[i].outcome.grant.id;
            && (forall j :: !RevokedAt(log, id, j))
            && (forall p :: !LastPauseAt(log, id, p))
            && r < |log| && Grants.Renews(log[r], id) && (forall j :: r < j < |log| ==> !Grants.Renews(log[j], id))
            && now < log[r].event.now + MAX_LEASE_TTL
  {
    hide Next, After, Log, FreshIds, Grants.RevokedIn, Grants.PausedIn, Grants.LastRenewal, Grants.Renews,
      Grants.RenewedUntil, RevokedAt, LastPauseAt;
    Grants.AuthorizedMeansPermitted(root, events, session, environment, now);
    var log := Log(root, events);
    i :| Grants.Permits(log, i, root, session, environment, now);
    c := AnswersARequest(root, events, i, log[i].outcome.grant.requestId);
    var id := log[i].outcome.grant.id;
    IssuedIsRenewed(log, i, id);
    r := Grants.LastRenewal(log, id);
    RenewalIsBounded(root, events, r, id);
    RevokedMeansOnce(log, id);
    PausedMeansLastPause(log, id);
  }

  lemma IssuedIsRenewed(log: seq<Step>, i: nat, id: string)
    requires i < |log| && Grants.Issues(log[i], id)
    ensures 0 <= Grants.LastRenewal(log, id)
  {
    hide Grants.LastRenewal;
    assert Grants.Renews(log[i], id);
  }

  /** What the log says of a grant, read without recursion: the last pause or resume decides. */
  lemma {:induction false} PausedMeansLastPause(log: seq<Step>, id: string)
    ensures Grants.PausedIn(log, id) <==> exists p :: LastPauseAt(log, id, p)
  {
    if log == [] {
    } else {
      var before := log[..|log| - 1];
      PausedMeansLastPause(before, id);
      if !IsPause(log[|log| - 1], id) {
        LastPauseStays(before, log, id);
      } else if log[|log| - 1].event.op.paused {
        assert LastPauseAt(log, id, |log| - 1);
      }
    }
  }

  predicate IsPause(step: Step, id: string) {
    step.event.op.Pause? && Grants.Succeeded(step, id)
  }

  ghost predicate LastPauseAt(log: seq<Step>, id: string, p: int) {
    0 <= p < |log| && IsPause(log[p], id) && log[p].event.op.paused && forall j :: p < j < |log| ==>
        !IsPause(log[j], id)
  }

  lemma LastPauseStays(before: seq<Step>, log: seq<Step>, id: string)
    requires log != [] && before == log[..|log| - 1] && !IsPause(log[|log| - 1], id)
    ensures (exists p :: LastPauseAt(log, id, p)) <==> (exists p :: LastPauseAt(before, id, p))
  {
    if p :| LastPauseAt(log, id, p) {
      assert LastPauseAt(before, id, p);
    }
    if p :| LastPauseAt(before, id, p) {
      assert LastPauseAt(log, id, p);
    }
  }

  predicate RevokedAt(log: seq<Step>, id: string, j: int) {
    0 <= j < |log| && Grants.RevokesGrant(log[j], id)
  }

  lemma {:induction false} RevokedMeansOnce(log: seq<Step>, id: string)
    ensures Grants.RevokedIn(log, id) <==> exists j :: RevokedAt(log, id, j)
  {
    if log == [] {
    } else {
      var before := log[..|log| - 1];
      RevokedMeansOnce(before, id);
      if j :| RevokedAt(before, id, j) {
        assert RevokedAt(log, id, j);
      }
      if j :| RevokedAt(log, id, j) {
        assert j < |before| ==> RevokedAt(before, id, j);
      }
      assert Grants.RevokesGrant(log[|log| - 1], id) ==> RevokedAt(log, id, |log| - 1);
    }
  }
}
