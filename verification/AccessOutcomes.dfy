/** What each operation answers, and what a request's stored status says about the run. */
module AccessOutcomes {
  import opened AccessSpec
  import opened KeyedLists
  import opened Options
  import opened AccessRuns
  import opened AccessRequests
  import opened AccessTheorems

  // ----- The stored status -----

  /** A request that has just been opened. */
  predicate IsNew(r: Request) {
    r.status == Pending && r.resolvedAt == None && r.resulting == ""
  }

  predicate Untold(r: Request) {
    r.status == Pending ==> IsNew(r)
  }

  /** What a step makes of a stored request: nothing, or it lapses, or it is resolved. */
  predicate Moves(before: Request, after: Request, step: Step) {
    || after == before
    || (before.status == Pending && Asked(after) == Asked(before)
        && (Lapses(after, step.event.now) || (Resolves(step, before.id) && Records(after, step))))
  }

  predicate AllMove(before: seq<Request>, after: seq<Request>, step: Step) {
    && |before| <= |after|
    && (forall k :: 0 <= k < |before| ==> Moves(before[k], after[k], step))
    && (forall k :: |before| <= k < |after| ==> IsNew(after[k]))
  }

  lemma ExpiryMoves(r: Request, step: Step)
    requires Untold(r)
    ensures Moves(r, ExpiredAt(r, step.event.now), step)
  {
  }

  lemma SettlingMoves(st: State, root: string, e: Event, status: Status, resulting: string, k: nat)
    requires forall j :: 0 <= j < |st.requests| ==> Untold(st.requests[j])
    requires k < |st.requests| && ExpiredAt(st.requests[k], e.now).status == Pending
    requires var settled := Settle(Expire(st.requests, e.now), k, status, resulting, e.now)[k];
             Resolves(Taken(st, root, e), settled.id) && Records(settled, Taken(st, root, e))
    ensures AllMove(st.requests, Settle(Expire(st.requests, e.now), k, status, resulting, e.now), Taken(st, root, e))
  {
    hide Next, Expire, Resolves, Records;
    var step := Taken(st, root, e);
    forall j | 0 <= j < |st.requests|
      ensures Moves(st.requests[j], ExpiredAt(st.requests[j], e.now), step)
    {
      ExpiryMoves(st.requests[j], step);
    }
  }

  lemma PlainMoves(st: State, root: string, e: Event)
    requires forall k :: 0 <= k < |st.requests| ==> Untold(st.requests[k])
    requires e.op.FulfillSecret? || e.op.Deny?
    ensures AllMove(st.requests, Next(st, root, e).0.requests, Taken(st, root, e))
  {
    hide IndexOf, AllMove, Expire;
    var rs := Expire(st.requests, e.now);
    var kind := if e.op.Deny? then None else Some(SecretKind);
    if Resolvable(rs, e.op.id, kind) == None && (e.op.Deny? || e.op.commitSucceeds) {
      var k := IndexOf(rs, RequestId, e.op.id);
      assert rs[k] == st.requests[k] && Untold(st.requests[k]);
      SettlingMoves(st, root, e, if e.op.Deny? then Denied else Fulfilled, rs[k].resulting, k);
    } else {
      NothingMoves(st.requests, Taken(st, root, e));
    }
  }

  lemma IssueMoves(st: State, root: string, e: Event)
    requires forall k :: 0 <= k < |st.requests| ==> Untold(st.requests[k])
    requires e.op.ApproveLease? || e.op.ApproveWorkspace?
    ensures AllMove(st.requests, Next(st, root, e).0.requests, Taken(st, root, e))
  {
    hide IndexOf, AllMove, Expire;
    var rs := Expire(st.requests, e.now);
    if Next(st, root, e).1.Refused? {
      NothingMoves(st.requests, Taken(st, root, e));
    } else {
      SettlingMoves(st, root, e, Approved, e.op.freshId, IndexOf(rs, RequestId, e.op.id));
    }
  }

  lemma NothingMoves(rs: seq<Request>, step: Step)
    ensures AllMove(rs, rs, step)
  {
  }

  lemma OthersMove(st: State, root: string, e: Event)
    requires forall k :: 0 <= k < |st.requests| ==> Untold(st.requests[k])
    requires !e.op.FulfillSecret? && !e.op.Deny? && !e.op.ApproveLease? && !e.op.ApproveWorkspace?
    ensures AllMove(st.requests, Next(st, root, e).0.requests, Taken(st, root, e))
  {
    hide IndexOf, Expire, ExpiredAt, FirstSame, PendingCount;
    forall j | 0 <= j < |st.requests|
      ensures Moves(st.requests[j], ExpiredAt(st.requests[j], e.now), Taken(st, root, e))
    {
      ExpiryMoves(st.requests[j], Taken(st, root, e));
    }
  }

  lemma StepMoves(st: State, root: string, e: Event)
    requires forall k :: 0 <= k < |st.requests| ==> Untold(st.requests[k])
    ensures AllMove(st.requests, Next(st, root, e).0.requests, Taken(st, root, e))
  {
    hide *;
    match e.op
    case FulfillSecret(_, _) => PlainMoves(st, root, e);
    case Deny(_) => PlainMoves(st, root, e);
    case ApproveLease(_, _, _) => IssueMoves(st, root, e);
    case ApproveWorkspace(_, _, _) => IssueMoves(st, root, e);
    case _ => OthersMove(st, root, e);
  }

  /** The log has the step after which the request reads as it does. */
  ghost predicate Told(r: Request, log: seq<Step>) {
    match r.status
    case Pending => IsNew(r)
    case Expired => exists j :: 0 <= j < |log| && Lapses(r, log[j].event.now)
    case _ => exists j :: 0 <= j < |log| && Resolves(log[j], r.id) && Records(r, log[j])
  }

  lemma ToldAfterStep(before: Request, after: Request, log: seq<Step>, step: Step)
    requires Told(before, log) && Moves(before, after, step)
    ensures Told(after, log + [step])
  {
    hide Resolves;
    var more := log + [step];
    assert more[|log|] == step && forall j :: 0 <= j < |log| ==> more[j] == log[j];
    if after == before {
      if after.status == Expired {
        var j :| 0 <= j < |log| && Lapses(after, log[j].event.now);
        assert Lapses(after, more[j].event.now);
      } else if after.status != Pending {
        var j :| 0 <= j < |log| && Resolves(log[j], after.id) && Records(after, log[j]);
        assert Resolves(more[j], after.id) && Records(after, more[j]);
      }
    } else {
      assert Asked(after).id == Asked(before).id;
      assert Lapses(after, more[|log|].event.now) || (Resolves(more[|log|], after.id) && Records(after, more[|log|]));
    }
  }

  lemma {:induction false} AllTold(root: string, events: seq<Event>, k: nat)
    requires k < |After(root, events).requests|
    ensures Told(After(root, events).requests[k], Log(root, events))
  {
    hide Next, Taken, Moves, Told, After, Log;
    NothingYet(root);
    if events != [] {
      var before := events[..|events| - 1];
      var st, e := After(root, before), events[|events| - 1];
      OneStepOn(root, events);
      forall j | 0 <= j < |st.requests|
        ensures Told(st.requests[j], Log(root, before)) && Untold(st.requests[j])
      {
        AllTold(root, before, j);
        ToldIsUntold(st.requests[j], Log(root, before));
      }
      StepMoves(st, root, e);
      if k < |st.requests| {
        ToldAfterStep(st.requests[k], After(root, events).requests[k], Log(root, before), Taken(st, root, e));
      } else {
        NewIsTold(After(root, events).requests[k], Log(root, events));
      }
    }
  }

  lemma NothingYet(root: string)
    ensures After(root, []).requests == []
  {
  }

  lemma OneStepOn(root: string, events: seq<Event>)
    requires events != []
    ensures var before := events[..|events| - 1];
            var st, e := After(root, before), events[|events| - 1];
            After(root, events) == Next(st, root, e).0 && Log(root, events) == Log(root, before) + [Taken(st, root, e)]
  {
    hide Next, Taken;
  }

  lemma ToldIsUntold(r: Request, log: seq<Step>)
    requires Told(r, log)
    ensures Untold(r)
  {
  }

  lemma NewIsTold(r: Request, log: seq<Step>)
    requires IsNew(r)
    ensures Told(r, log)
  {
  }

  /**
   A stored request reads as the run left it: as some step resolved it, in status, time and result; or
   lapsed, after a step at its deadline or later; or pending, and then nothing resolved it.
   */
  lemma StatusIsLogged(root: string, events: seq<Event>, k: nat)
    requires FreshIds(events) && k < |After(root, events).requests|
    ensures var r, log := After(root, events).requests[k], Log(root, events);
            match r.status
            case Pending => r.resolvedAt == None && r.resulting == "" && !ResolvedIn(log, r.id)
            case Expired => !ResolvedIn(log, r.id) && exists j :: 0 <= j < |log| && Lapses(r, log[j].event.now)
            case _ => exists j :: 0 <= j < |log| && Resolves(log[j], r.id) && Records(r, log[j])
  {
    hide After, Log, FreshIds, Resolves, Records, Lapses, ResolvedIn, OnceEach;
    AllTold(root, events, k);
    RequestsMatchTheLog(root, events);
  }

  /** Until its deadline a request stays pending, unless a step resolves it. */
  lemma StaysPending(root: string, events: seq<Event>, k: nat)
    requires FreshIds(events) && k < |After(root, events).requests|
    requires var r := After(root, events).requests[k];
             && (forall i :: 0 <= i < |events| ==> events[i].now < r.expiresAt)
             && !ResolvedIn(Log(root, events), r.id)
    ensures After(root, events).requests[k].status == Pending
  {
    hide After, Log, FreshIds, Resolves, Records, ResolvedIn, OnceEach;
    StatusIsLogged(root, events, k);
    RequestsMatchTheLog(root, events);
    forall i | 0 <= i < |events|
      ensures Log(root, events)[i].event == events[i]
    {
      LogEvents(root, events, i);
    }
  }

  // ----- When an operation succeeds -----

  /** The request is pending and its deadline is still to come. */
  predicate IsOpen(r: Request, now: int) {
    r.status == Pending && now < r.expiresAt
  }

  /** Request k is the one with this identifier. */
  predicate IsThe(rs: seq<Request>, k: nat, id: string) {
    DistinctIds(rs) && k < |rs| && rs[k].id == id
  }

  lemma IndexIsThe(rs: seq<Request>, k: nat, id: string, now: int)
    requires IsThe(rs, k, id)
    ensures IndexOf(Expire(rs, now), RequestId, id) == k
  {
    hide IndexOf;
    var after := Expire(rs, now);
    assert RequestId(after[k]) == id;
    var i := IndexOf(after, RequestId, id);
    assert i <= k && rs[i].id == after[i].id == id;
  }

  /**
   Approving succeeds exactly for a pending request of its kind before the deadline, with a lifetime of
   at most a day; every other case has its own error.
   */
  lemma ApprovingMeans(st: State, root: string, e: Event, k: nat, lifetime: int)
    requires (e.op.ApproveLease? || e.op.ApproveWorkspace?) && IsThe(st.requests, k, e.op.id)
    requires var default := if e.op.ApproveLease? then 3600 * SECOND else 2 * 3600 * SECOND;
             lifetime == if e.op.ttl > 0 then e.op.ttl
                         else if st.requests[k].requestedTtl > 0 then st.requests[k].requestedTtl
                         else default
    ensures var r, outcome := st.requests[k], Next(st, root, e).1;
            if !IsOpen(r, e.now) then outcome == Refused(NotPending)
            else if (r.kind != LeaseKind && e.op.ApproveLease?) || (r.kind != WorkspaceKind && e.op.ApproveWorkspace?)
            then outcome == Refused(WrongKind)
            else if lifetime > 24 * 3600 * SECOND then outcome == Refused(TtlTooLong)
            else if e.op.ApproveLease? then outcome.GotLease? && outcome.lease.expiresAt == e.now + lifetime
            else outcome.GotGrant? && outcome.grant.expiresAt == e.now + lifetime && outcome.grant.root == root
  {
    IndexIsThe(st.requests, k, e.op.id, e.now);
    hide IndexOf, Expire, Settle;
  }

  /** Denying needs a pending request before its deadline; fulfilling also that it asks for a secret, and a commit. */
  lemma AnsweringMeans(st: State, root: string, e: Event, k: nat)
    requires (e.op.Deny? || e.op.FulfillSecret?) && IsThe(st.requests, k, e.op.id)
    ensures var r, outcome := st.requests[k], Next(st, root, e).1;
            if !IsOpen(r, e.now) then outcome == Refused(NotPending)
            else if e.op.Deny? then outcome == Resolved(r.id, Denied)
            else if r.kind != SecretKind then outcome == Refused(WrongKind)
            else if !e.op.commitSucceeds then outcome == Refused(CommitFailed)
            else outcome == Resolved(r.id, Fulfilled)
  {
    IndexIsThe(st.requests, k, e.op.id, e.now);
    hide IndexOf, Expire, Settle;
  }

  /** Nothing is resolved under an identifier that no request has. */
  lemma UnknownRequest(st: State, root: string, e: Event)
    requires e.op.ApproveLease? || e.op.ApproveWorkspace? || e.op.Deny? || e.op.FulfillSecret?
    requires forall k :: 0 <= k < |st.requests| ==> st.requests[k].id != e.op.id
    ensures Next(st, root, e).1 == Refused(NotFound)
  {
    var rs := Expire(st.requests, e.now);
    var k := IndexOf(rs, RequestId, e.op.id);
    assert k < |rs| ==> rs[k].id == st.requests[k].id;
    hide IndexOf, Expire, Settle;
  }

  // ----- Opening requests -----

  /** The places of the session's open requests. */
  function OpenOnes(rs: seq<Request>, session: string, now: int): set<nat> {
    set k: nat | k < |rs| && rs[k].session == session && IsOpen(rs[k], now)
  }

  lemma CountIsSize(rs: seq<Request>, session: string, now: int)
    ensures PendingCount(Expire(rs, now), session) == |OpenOnes(rs, session, now)|
  {
    hide Expire, PendingCount;
    var after := Expire(rs, now);
    PendingIsSize(after, session);
    assert OpenOnes(rs, session, now) == PendingOnes(after, session);
  }

  /** Both ask for one thing, commands compared as they are joined. */
  predicate AskAlike(a: Request, b: Request) {
    && a.session == b.session && a.kind == b.kind && a.environment == b.environment
    && a.secretAlias == b.secretAlias && a.secretKey == b.secretKey
    && JoinCommands(a.commands) == JoinCommands(b.commands)
  }

  /** Request k is the first open one that asks like the candidate. */
  predicate FirstAlike(rs: seq<Request>, candidate: Request, now: int, k: nat) {
    && k < |rs| && IsOpen(rs[k], now) && AskAlike(rs[k], candidate)
    && forall j :: 0 <= j < k ==> !(IsOpen(rs[j], now) && AskAlike(rs[j], candidate))
  }

  /**
   Opening answers with the first open request of the session that asks alike, if there is one; otherwise
   it is refused if the session has 32 open ones, and otherwise opens a new one.
   */
  lemma OpeningMeans(st: State, root: string, e: Event)
    requires e.op.Create?
    ensures var rs, candidate, outcome := st.requests, e.op.candidate, Next(st, root, e).1;
            if exists k :: 0 <= k < |rs| && IsOpen(rs[k], e.now) && AskAlike(rs[k], candidate)
            then exists k: nat :: FirstAlike(rs, candidate, e.now, k) && outcome == Created(rs[k])
            else if |OpenOnes(rs, candidate.session, e.now)| >= 32 then outcome == Refused(TooManyPending)
            else && outcome.Created? && IsNew(outcome.request) && outcome.request.id == e.op.freshId
                 && AsksFor(outcome.request, candidate)
                 && outcome.request.createdAt == e.now && outcome.request.expiresAt == e.now + 15 * 60 * SECOND
  {
    hide JoinCommands, PendingCount, Expire, OpenOnes;
    CountIsSize(st.requests, e.op.candidate.session, e.now);
    var rs, candidate := Expire(st.requests, e.now), e.op.candidate;
    forall k | 0 <= k < |rs|
      ensures IsPendingOf(rs[k], candidate.session) && SameRequest(rs[k], candidate)
         <==> IsOpen(st.requests[k], e.now) && AskAlike(st.requests[k], candidate)
    {
    }
    var same := FirstSame(rs, candidate, 0);
    if same < |rs| {
      assert rs[same] == st.requests[same];
      assert FirstAlike(st.requests, candidate, e.now, same);
    }
  }

  /** In every reachable state a session has at most 32 pending requests, no two of which ask alike. */
  lemma NoTwins(root: string, events: seq<Event>, session: string, j: nat, k: nat)
    ensures var rs := After(root, events).requests;
            |PendingOnes(rs, session)| <= 32
    ensures var rs := After(root, events).requests;
            j < k < |rs| && rs[j].status == Pending && rs[k].status == Pending ==> !AskAlike(rs[j], rs[k])
  {
    hide After, JoinCommands, PendingCount;
    LimitsAlwaysHold(root, events);
    var rs := After(root, events).requests;
    PendingIsSize(rs, session);
    assert j < k < |rs| ==> !Duplicates(rs[j], rs[k]);
  }

  /** The places of the session's pending requests. */
  function PendingOnes(rs: seq<Request>, session: string): set<nat> {
    set i: nat | i < |rs| && rs[i].session == session && rs[i].status == Pending
  }

  lemma PendingSnoc(rs: seq<Request>, session: string)
    requires rs != []
    ensures var n := |rs| - 1;
            PendingOnes(rs, session) == PendingOnes(rs[..n], session) + if IsPendingOf(rs[n], session) then {n} else {}
  {
  }

  lemma {:induction false} PendingIsSize(rs: seq<Request>, session: string)
    ensures PendingCount(rs, session) == |PendingOnes(rs, session)|
  {
    hide IsPendingOf;
    if rs == [] {
      assert PendingOnes(rs, session) == {};
    } else {
      PendingSnoc(rs, session);
      PendingIsSize(rs[..|rs| - 1], session);
      LastIsNew(rs, session);
    }
  }

  lemma LastIsNew(rs: seq<Request>, session: string)
    requires rs != []
    ensures |rs| - 1 !in PendingOnes(rs[..|rs| - 1], session)
  {
  }

  // ----- Comparing commands -----

  /** The shape that command lists have when they come from the outside, but for the byte that joins them. */
  predicate Plain(commands: seq<string>) {
    forall k :: 0 <= k < |commands| ==> commands[k] != "" && '\0' !in commands[k]
  }

  lemma JoinStep(commands: seq<string>)
    requires commands != []
    ensures JoinCommands(commands) == commands[0] + if |commands| == 1 then "" else "\0" + JoinCommands(commands[1..])
  {
  }

  /** Where the first joining byte stands tells where the first command ends. */
  lemma FirstEnds(a: string, b: string, x: string, y: string)
    requires '\0' !in a && '\0' !in b && a + x == b + y
    requires (x == "" || x[0] == '\0') && (y == "" || y[0] == '\0')
    ensures a == b && x == y
  {
    NotLonger(a, b, x, y);
    NotLonger(b, a, y, x);
    assert a == (a + x)[..|a|] && b == (b + y)[..|b|];
    assert x == (a + x)[|a|..] && y == (b + y)[|b|..];
  }

  lemma NotLonger(a: string, b: string, x: string, y: string)
    requires '\0' !in b && a + x == b + y && (x == "" || x[0] == '\0')
    ensures |b| <= |a|
  {
    var all := a + x;
    assert forall i :: 0 <= i < |b| ==> all[i] == b[i];
    assert |x| > 0 ==> all[|a|] == '\0';
  }

  lemma JoinSplits(a: seq<string>, b: seq<string>)
    requires Plain(a) && Plain(b) && a != [] && b != [] && JoinCommands(a) == JoinCommands(b)
    ensures a[0] == b[0] && (|a| == 1 <==> |b| == 1)
    ensures JoinCommands(a[1..]) == JoinCommands(b[1..])
  {
    JoinStep(a);
    JoinStep(b);
    hide JoinCommands;
    var x := if |a| == 1 then "" else "\0" + JoinCommands(a[1..]);
    var y := if |b| == 1 then "" else "\0" + JoinCommands(b[1..]);
    FirstEnds(a[0], b[0], x, y);
    assert |a| > 1 ==> x[1..] == JoinCommands(a[1..]);
    assert |b| > 1 ==> y[1..] == JoinCommands(b[1..]);
    assert |a| == 1 ==> a[1..] == [];
    assert |b| == 1 ==> b[1..] == [];
  }

  lemma JoinsToSomething(a: seq<string>)
    requires Plain(a) && a != []
    ensures JoinCommands(a) != JoinCommands([])
  {
    JoinStep(a);
  }

  /** Joining tells lists of nonempty commands without the joining byte apart. */
  lemma {:induction false} JoinedAlike(a: seq<string>, b: seq<string>)
    requires Plain(a) && Plain(b)
    ensures JoinCommands(a) == JoinCommands(b) <==> a == b
  {
    hide JoinCommands;
    if a == [] || b == [] {
      if a != [] {
        JoinsToSomething(a);
      }
      if b != [] {
        JoinsToSomething(b);
      }
    } else if JoinCommands(a) == JoinCommands(b) {
      JoinSplits(a, b);
      JoinedAlike(a[1..], b[1..]);
      assert a == [a[0]] + a[1..] && b == [b[0]] + b[1..];
    }
  }

  /** A command with the joining byte in it is taken for two. */
  lemma JoiningByteMisleads()
    ensures JoinCommands(["a", "b"]) == JoinCommands(["a\0b"]) && ["a", "b"] != ["a\0b"]
  {
    JoinStep(["a", "b"]);
    assert ["a", "b"][1..] == ["b"];
  }

  // ----- Who may revoke -----

  lemma RevokingStep(st: State, root: string, e: Event)
    requires e.op.Revoke? && Next(st, root, e).1 == Done
    ensures exists k :: 0 <= k < |st.leases| && st.leases[k].id == e.op.id
              && (e.op.session == "" || e.op.session == st.leases[k].session)
  {
    var k := IndexOf(st.leases, LeaseId, e.op.id);
    assert LeaseId(st.leases[k]) == e.op.id;
  }

  /** A session revokes only leases that were issued to it; revoking in no session's name revokes any. */
  lemma RevokedByOwner(root: string, events: seq<Event>, j: nat) returns (i: nat)
    requires FreshIds(events) && j < |events|
    requires var step := Log(root, events)[j]; step.event.op.Revoke? && step.outcome == Done
    ensures var log := Log(root, events);
            && i < j && log[i].outcome.GotLease? && log[i].outcome.lease.id == log[j].event.op.id
            && (log[j].event.op.session == "" || log[j].event.op.session == log[i].outcome.lease.session)
  {
    hide After, Log, Next, Taken;
    LogAt(root, events, j);
    LogPrefix(root, events, j);
    var before := events[..j];
    assert FreshIds(before);
    LeasesMatchTheLog(root, before);
    var st, e := After(root, before), events[j];
    TakenMeans(st, root, e);
    RevokingStep(st, root, e);
    var k :| 0 <= k < |st.leases| && st.leases[k].id == e.op.id
      && (e.op.session == "" || e.op.session == st.leases[k].session);
    assert Issued(Log(root, before), st.leases[k]);
    i :| 0 <= i < |Log(root, before)| && Issues(Log(root, before)[i], st.leases[k]);
  }

  lemma TakenMeans(st: State, root: string, e: Event)
    ensures Taken(st, root, e) == Step(e, Next(st, root, e).1)
  {
  }

  lemma {:induction false} LogPrefix(root: string, events: seq<Event>, n: nat)
    requires n <= |events|
    ensures Log(root, events[..n]) == Log(root, events)[..n]
  {
    hide After, Next, Taken;
    if n == |events| {
      assert events[..n] == events;
    } else {
      var before := events[..|events| - 1];
      LogPrefix(root, before, n);
      assert before[..n] == events[..n];
      OneStepOn(root, events);
    }
  }

  // ----- When a lease was revoked -----

  /** The lease reads as revoked at the time of the first step that revoked it. */
  ghost predicate RevokedAsLogged(lease: Lease, log: seq<Step>) {
    match lease.revokedAt
    case None => !Revoked(log, lease.id)
    case Some(at) => exists j :: FirstRevokes(log, lease.id, j) && at == log[j].event.now
  }

  predicate FirstRevokes(log: seq<Step>, id: string, j: int) {
    0 <= j < |log| && Revokes(log[j], id) && forall i :: 0 <= i < j ==> !Revokes(log[i], id)
  }

  lemma LeaseStep(st: State, root: string, e: Event, k: nat)
    requires k < |st.leases|
    ensures var after := Next(st, root, e).0.leases;
            && k < |after|
            && (after[k] == st.leases[k]
                || (Revokes(Taken(st, root, e), st.leases[k].id)
                    && after[k] == st.leases[k].(revokedAt := OrElse(st.leases[k].revokedAt, e.now))))
  {
    hide Next, IndexOf;
    LeaseEffect(st, root, e);
    if e.op.Revoke? && Next(st, root, e).1 == Done {
      RevokeOne(st, e.op.id, e.op.session, e.now, root, e);
    }
  }

  lemma RevokeOne(st: State, id: string, session: string, now: int, root: string, e: Event)
    requires e == Event(now, Revoke(id, session)) && Next(st, root, e).1 == Done
    ensures var k := IndexOf(st.leases, LeaseId, id);
            && k < |st.leases| && st.leases[k].id == id
            && var revoked := st.leases[k].(revokedAt := OrElse(st.leases[k].revokedAt, now));
               Next(st, root, e).0.leases == st.leases[k := revoked]
  {
    var k := IndexOf(st.leases, LeaseId, id);
    assert LeaseId(st.leases[k]) == id;
    hide IndexOf;
  }

  /** A lease counts as revoked since the first step that revoked it, if any did. */
  lemma {:induction false} RevokedSince(root: string, events: seq<Event>, k: nat)
    requires FreshIds(events) && k < |After(root, events).leases|
    ensures RevokedAsLogged(After(root, events).leases[k], Log(root, events))
  {
    hide After, Log, Next, Taken, Revokes;
    NoLeaseYet(root);
    LeasesMatchTheLog(root, events);
    if events != [] {
      var before := events[..|events| - 1];
      var st, e := After(root, before), events[|events| - 1];
      OneStepOn(root, events);
      LastStep(root, events);
      LeasesMatchTheLog(root, before);
      if k < |st.leases| {
        RevokedSince(root, before, k);
        LeaseStep(st, root, e, k);
        TakenMeans(st, root, e);
        RevokedAfterStep(st.leases[k], After(root, events).leases[k], Log(root, before), Taken(st, root, e), e);
      } else {
        NewLeaseIsUnrevoked(st, root, e, k);
      }
    }
  }

  lemma NoLeaseYet(root: string)
    ensures After(root, []).leases == []
  {
  }

  lemma NewLeaseIsUnrevoked(st: State, root: string, e: Event, k: nat)
    requires |st.leases| <= k < |Next(st, root, e).0.leases|
    ensures Next(st, root, e).0.leases[k].revokedAt == None
  {
    hide Next, IndexOf;
    LeaseEffect(st, root, e);
  }

  lemma RevokedAfterStep(lease: Lease, after: Lease, log: seq<Step>, step: Step, e: Event)
    requires RevokedAsLogged(lease, log) && step.event == e
    requires after.id == lease.id && (after.revokedAt.Some? <==> Revoked(log + [step], after.id))
    requires after == lease || (Revokes(step, lease.id) && after == lease.(revokedAt := OrElse(lease.revokedAt, e.now)))
    ensures RevokedAsLogged(after, log + [step])
  {
    hide Revokes;
    var more := log + [step];
    assert more[|log|] == step && forall j :: 0 <= j < |log| ==> more[j] == log[j];
    if lease.revokedAt.Some? {
      var j :| FirstRevokes(log, lease.id, j) && lease.revokedAt == Some(log[j].event.now);
      assert FirstRevokes(more, lease.id, j);
    } else if after != lease {
      assert FirstRevokes(more, lease.id, |log|);
    }
  }

  // ----- What a human does to a grant, and who may end a lease -----

  lemma FirstIndex<T>(s: seq<T>, key: T -> string, k: nat, id: string)
    requires k < |s| && key(s[k]) == id && forall j :: 0 <= j < k ==> key(s[j]) != id
    ensures IndexOf(s, key, id) == k
  {
  }

  predicate IsTheGrant(grants: seq<Grant>, k: nat, id: string) {
    k < |grants| && grants[k].id == id && forall j :: 0 <= j < k ==> grants[j].id != id
  }

  /** A revoked grant can be neither paused nor extended; extending sets a new end, at most a day from now. */
  lemma GrantAnswers(st: State, root: string, e: Event, k: nat)
    requires (e.op.Pause? || e.op.Extend? || e.op.RevokeWorkspace?) && IsTheGrant(st.grants, k, e.op.id)
    ensures var g, (after, outcome) := st.grants[k], Next(st, root, e);
            match e.op
            case Extend(_, ttl) =>
              if ttl <= 0 || ttl > 24 * 3600 * SECOND then outcome == Refused(BadTtl)
              else if g.revokedAt.Some? then outcome == Refused(Unauthorized)
              else outcome == Done && after == st.(grants := st.grants[k := g.(expiresAt := e.now + ttl)])
            case Pause(_, paused) =>
              if g.revokedAt.Some? then outcome == Refused(Unauthorized)
              else
                var pausedAt := if paused then Some(e.now) else None;
                outcome == Done && after == st.(grants := st.grants[k := g.(pausedAt := pausedAt)])
            case _ =>
              outcome == Done
              && after == if g.revokedAt.Some? then st else st.(grants := st.grants[k := g.(revokedAt := Some(e.now))])
  {
    hide IndexOf;
    FirstIndex(st.grants, GrantId, k, e.op.id);
    assert st.grants[k := st.grants[k]] == st.grants;
  }

  predicate IsTheLease(leases: seq<Lease>, k: nat, id: string) {
    k < |leases| && leases[k].id == id && forall j :: 0 <= j < k ==> leases[j].id != id
  }

  /** A session that is not the lease's may not end it; ending it twice keeps the first time. */
  lemma RevokingMeans(st: State, root: string, e: Event, k: nat)
    requires e.op.Revoke? && IsTheLease(st.leases, k, e.op.id)
    ensures var lease, (after, outcome) := st.leases[k], Next(st, root, e);
            if e.op.session != "" && e.op.session != lease.session then outcome == Refused(Unauthorized)
            else if lease.revokedAt.Some? then outcome == Done && after == st
            else outcome == Done && after == st.(leases := st.leases[k := lease.(revokedAt := Some(e.now))])
  {
    hide IndexOf;
    FirstIndex(st.leases, LeaseId, k, e.op.id);
    assert st.leases[k := st.leases[k]] == st.leases;
  }
}
