/**
 Agent requests, command leases and workspace grants (internal/access/access.go) as a transition
 system: what each operation does to the stored state, at a given time.
 */
module AccessSpec {
  import opened KeyedLists
  import opened Options

  const SECOND: int := 1_000_000_000
  const DEFAULT_REQUEST_TTL: int := 15 * 60 * SECOND
  const DEFAULT_LEASE_TTL: int := 3600 * SECOND
  const DEFAULT_WORKSPACE_TTL: int := 2 * 3600 * SECOND
  const MAX_LEASE_TTL: int := 24 * 3600 * SECOND
  const MAX_PENDING_SESSION: nat := 32

  datatype Kind = SecretKind | LeaseKind | WorkspaceKind

  datatype Status = Pending | Fulfilled | Approved | Denied | Expired

  /** A request; fields that only describe it to a human are left out. */
  datatype Request = Request(
    id: string, kind: Kind, status: Status, session: string, environment: string,
    secretAlias: string, secretKey: string, commands: seq<string>,
    requestedTtl: int, createdAt: int, expiresAt: int, resolvedAt: Option<int>, resulting: string)

  datatype Lease = Lease(
    id: string, requestId: string, session: string, environment: string, commands: seq<string>,
    createdAt: int, expiresAt: int, revokedAt: Option<int>)

  datatype Grant = Grant(
    id: string, requestId: string, session: string, root: string, environment: string,
    createdAt: int, expiresAt: int, pausedAt: Option<int>, revokedAt: Option<int>)

  datatype State = State(requests: seq<Request>, leases: seq<Lease>, grants: seq<Grant>)

  const EMPTY: State := State([], [], [])

  /** One operation; fresh identifiers and the fate of a storage commit come from outside. */
  datatype Op =
    | Create(candidate: Request, freshId: string)
    | FulfillSecret(id: string, commitSucceeds: bool)
    | ApproveLease(id: string, ttl: int, freshId: string)
    | ApproveWorkspace(id: string, ttl: int, freshId: string)
    | Deny(id: string)
    | ListRequests
    | Revoke(id: string, session: string)
    | Pause(id: string, paused: bool)
    | Extend(id: string, ttl: int)
    | RevokeWorkspace(id: string)

  datatype Event = Event(now: int, op: Op)

  datatype Error =
    | NotFound | NotPending | WrongKind | CommitFailed | TtlTooLong | TooManyPending | Unauthorized | BadTtl

  datatype Outcome =
    | Created(request: Request)
    | Resolved(id: string, status: Status)
    | GotLease(lease: Lease)
    | GotGrant(grant: Grant)
    | Done
    | Refused(error: Error)

  // ----- Requests -----

  function ExpiredAt(r: Request, now: int): Request {
    if r.status == Pending && now >= r.expiresAt then r.(status := Expired, resolvedAt := Some(now)) else r
  }

  function Expire(requests: seq<Request>, now: int): (rs: seq<Request>)
    ensures |rs| == |requests|
    ensures forall i :: 0 <= i < |rs| ==> rs[i] == ExpiredAt(requests[i], now)
  {
    if requests == [] then []
    else Expire(requests[..|requests| - 1], now) + [ExpiredAt(requests[|requests| - 1], now)]
  }

  /** The commands in one string, as they are compared. */
  function JoinCommands(commands: seq<string>): string {
    if commands == [] then []
    else if |commands| == 1 then commands[0]
    else commands[0] + "\0" + JoinCommands(commands[1..])
  }

  predicate SameRequest(a: Request, b: Request) {
    && a.kind == b.kind && a.environment == b.environment && a.secretAlias == b.secretAlias
    && a.secretKey == b.secretKey && JoinCommands(a.commands) == JoinCommands(b.commands)
  }

  predicate IsPendingOf(r: Request, session: string) {
    r.session == session && r.status == Pending
  }

  function PendingCount(requests: seq<Request>, session: string): nat {
    if requests == [] then 0
    else
      PendingCount(requests[..|requests| - 1], session)
      + if IsPendingOf(requests[|requests| - 1], session) then 1 else 0
  }

  /** The first pending request of the session that asks for the same as the candidate; none: the number of requests. */
  function FirstSame(requests: seq<Request>, candidate: Request, i: nat): (k: nat)
    requires i <= |requests|
    ensures i <= k <= |requests|
    ensures k < |requests| ==> IsPendingOf(requests[k], candidate.session) && SameRequest(requests[k], candidate)
    ensures forall j :: i <= j < k ==>
        !(IsPendingOf(requests[j], candidate.session) && SameRequest(requests[j], candidate))
    decreases |requests| - i
  {
    if i == |requests| || (IsPendingOf(requests[i], candidate.session) && SameRequest(requests[i], candidate)) then i
    else FirstSame(requests, candidate, i + 1)
  }

  function NewRequest(candidate: Request, id: string, now: int): Request {
    candidate.(id := id, status := Pending, createdAt := now, expiresAt := now + DEFAULT_REQUEST_TTL,
               resolvedAt := None, resulting := "")
  }

  function CreateRequest(st: State, candidate: Request, id: string, now: int): (State, Outcome) {
    var rs := Expire(st.requests, now);
    var same := FirstSame(rs, candidate, 0);
    if same < |rs| then (st.(requests := rs), Created(rs[same]))
    else if PendingCount(rs, candidate.session) >= MAX_PENDING_SESSION then (st, Refused(TooManyPending))
    else
      var r := NewRequest(candidate, id, now);
      (st.(requests := rs + [r]), Created(r))
  }

  function RequestId(r: Request): string {
    r.id
  }

  /** The pending request with an id that a resolution of some kind applies to, once the stale ones have expired. */
  function Resolvable(rs: seq<Request>, id: string, kind: Option<Kind>): (e: Option<Error>)
    ensures e == None ==>
              && IndexOf(rs, RequestId, id) < |rs| && rs[IndexOf(rs, RequestId, id)].status == Pending
              && (kind.Some? ==> rs[IndexOf(rs, RequestId, id)].kind == kind.value)
  {
    var k := IndexOf(rs, RequestId, id);
    if k == |rs| then Some(NotFound)
    else if rs[k].status != Pending then Some(NotPending)
    else if kind.Some? && rs[k].kind != kind.value then Some(WrongKind)
    else None
  }

  function Settle(rs: seq<Request>, k: nat, status: Status, resulting: string, now: int): seq<Request>
    requires k < |rs|
  {
    rs[k := rs[k].(status := status, resolvedAt := Some(now), resulting := resulting)]
  }

  function ChosenTtl(asked: int, requested: int, default: int): int {
    if asked > 0 then asked else if requested > 0 then requested else default
  }

  function ResolvePlain(st: State, id: string, kind: Option<Kind>, status: Status, commits: bool, now: int)
    : (State, Outcome)
  {
    var rs := Expire(st.requests, now);
    match Resolvable(rs, id, kind)
    case Some(e) => (st, Refused(e))
    case None =>
      var k := IndexOf(rs, RequestId, id);
      if !commits then (st, Refused(CommitFailed))
      else (st.(requests := Settle(rs, k, status, rs[k].resulting, now)), Resolved(id, status))
  }

  function ResolveLease(st: State, id: string, ttl: int, freshId: string, now: int): (State, Outcome) {
    var rs := Expire(st.requests, now);
    match Resolvable(rs, id, Some(LeaseKind))
    case Some(e) => (st, Refused(e))
    case None =>
      var k := IndexOf(rs, RequestId, id);
      var chosen := ChosenTtl(ttl, rs[k].requestedTtl, DEFAULT_LEASE_TTL);
      if chosen > MAX_LEASE_TTL then (st, Refused(TtlTooLong))
      else
        var lease := Lease(freshId, id, rs[k].session, rs[k].environment, rs[k].commands, now, now + chosen, None);
        (st.(requests := Settle(rs, k, Approved, freshId, now), leases := st.leases + [lease]), GotLease(lease))
  }

  function ResolveWorkspace(st: State, root: string, id: string, ttl: int, freshId: string, now: int)
    : (State, Outcome)
  {
    var rs := Expire(st.requests, now);
    match Resolvable(rs, id, Some(WorkspaceKind))
    case Some(e) => (st, Refused(e))
    case None =>
      var k := IndexOf(rs, RequestId, id);
      var chosen := ChosenTtl(ttl, rs[k].requestedTtl, DEFAULT_WORKSPACE_TTL);
      if chosen > MAX_LEASE_TTL then (st, Refused(TtlTooLong))
      else
        var grant := Grant(freshId, id, rs[k].session, root, rs[k].environment, now, now + chosen, None, None);
        (st.(requests := Settle(rs, k, Approved, freshId, now), grants := st.grants + [grant]), GotGrant(grant))
  }

  // ----- Leases and grants -----

  function LeaseId(l: Lease): string {
    l.id
  }

  function GrantId(g: Grant): string {
    g.id
  }

  function OrElse(at: Option<int>, now: int): Option<int> {
    if at == None then Some(now) else at
  }

  function RevokeLease(st: State, id: string, session: string, now: int): (State, Outcome) {
    var k := IndexOf(st.leases, LeaseId, id);
    if k == |st.leases| then (st, Refused(NotFound))
    else if session != "" && st.leases[k].session != session then (st, Refused(Unauthorized))
    else (st.(leases := st.leases[k := st.leases[k].(revokedAt := OrElse(st.leases[k].revokedAt, now))]), Done)
  }

  function PauseGrant(st: State, id: string, paused: bool, now: int): (State, Outcome) {
    var k := IndexOf(st.grants, GrantId, id);
    if k == |st.grants| then (st, Refused(NotFound))
    else if st.grants[k].revokedAt.Some? then (st, Refused(Unauthorized))
    else (st.(grants := st.grants[k := st.grants[k].(pausedAt := if paused then Some(now) else None)]), Done)
  }

  function ExtendGrant(st: State, id: string, ttl: int, now: int): (State, Outcome) {
    var k := IndexOf(st.grants, GrantId, id);
    if ttl <= 0 || ttl > MAX_LEASE_TTL then (st, Refused(BadTtl))
    else if k == |st.grants| then (st, Refused(NotFound))
    else if st.grants[k].revokedAt.Some? then (st, Refused(Unauthorized))
    else
      var grant := st.grants[k].(expiresAt := now + ttl);
      (st.(grants := st.grants[k := grant]), Done)
  }

  function RevokeGrant(st: State, id: string, now: int): (State, Outcome) {
    var k := IndexOf(st.grants, GrantId, id);
    if k == |st.grants| then (st, Refused(NotFound))
    else (st.(grants := st.grants[k := st.grants[k].(revokedAt := OrElse(st.grants[k].revokedAt, now))]), Done)
  }

  // ----- All operations -----

  /** The state after an event, and its outcome. A refused operation changes nothing. */
  function Next(st: State, root: string, e: Event): (r: (State, Outcome))
    ensures r.1.Refused? ==> r.0 == st
  {
    match e.op
    case Create(candidate, freshId) => CreateRequest(st, candidate, freshId, e.now)
    case FulfillSecret(id, commits) => ResolvePlain(st, id, Some(SecretKind), Fulfilled, commits, e.now)
    case ApproveLease(id, ttl, freshId) => ResolveLease(st, id, ttl, freshId, e.now)
    case ApproveWorkspace(id, ttl, freshId) => ResolveWorkspace(st, root, id, ttl, freshId, e.now)
    case Deny(id) => ResolvePlain(st, id, None, Denied, true, e.now)
    case ListRequests => (st.(requests := Expire(st.requests, e.now)), Done)
    case Revoke(id, session) => RevokeLease(st, id, session, e.now)
    case Pause(id, paused) => PauseGrant(st, id, paused, e.now)
    case Extend(id, ttl) => ExtendGrant(st, id, ttl, e.now)
    case RevokeWorkspace(id) => RevokeGrant(st, id, e.now)
  }

  /** May the session run the command in the environment at time now? */
  predicate Authorizes(lease: Lease, session: string, environment: string, command: string, now: int) {
    && lease.session == session && lease.environment == environment
    && lease.revokedAt == None && now < lease.expiresAt && command in lease.commands
  }

  predicate Authorized(st: State, session: string, environment: string, command: string, now: int) {
    exists k :: 0 <= k < |st.leases| && Authorizes(st.leases[k], session, environment, command, now)
  }

  predicate AuthorizesWorkspace(grant: Grant, root: string, session: string, environment: string, now: int) {
    && grant.session == session && grant.root == root && grant.environment == environment
    && grant.pausedAt == None && grant.revokedAt == None && now < grant.expiresAt
  }

  predicate WorkspaceAuthorized(st: State, root: string, session: string, environment: string, now: int) {
    exists k :: 0 <= k < |st.grants| && AuthorizesWorkspace(st.grants[k], root, session, environment, now)
  }
}
