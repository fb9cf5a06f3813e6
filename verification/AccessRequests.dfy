/** The life of a request over a whole run: who opened it, what may resolve it, and that this happens once. */
module AccessRequests {
  import opened AccessSpec
  import opened KeyedLists
  import opened Options
  import opened AccessRuns

  predicate Final(status: Status) {
    status == Fulfilled || status == Approved || status == Denied
  }

  /** The request with its outcome taken away: what it was when it was opened. */
  function Asked(r: Request): Request {
    r.(status := Pending, resolvedAt := None, resulting := "")
  }

  predicate SameAsked(before: seq<Request>, after: seq<Request>) {
    |before| <= |after| && forall k :: 0 <= k < |before| ==> Asked(after[k]) == Asked(before[k])
  }

  // ----- One step -----

  /** The request asks for what its opener asked for. */
  predicate AsksFor(r: Request, candidate: Request) {
    && r.kind == candidate.kind && r.session == candidate.session && r.environment == candidate.environment
    && r.secretAlias == candidate.secretAlias && r.secretKey == candidate.secretKey
    && r.commands == candidate.commands && r.requestedTtl == candidate.requestedTtl
  }

  /** The step opens the request: a quarter of an hour to decide about what was asked for. */
  predicate Opens(step: Step, r: Request) {
    && step.event.op.Create? && step.outcome == Created(Asked(r)) && r.id == step.event.op.freshId
    && AsksFor(r, step.event.op.candidate)
    && r.createdAt == step.event.now && r.expiresAt == step.event.now + 15 * 60 * SECOND
  }

  predicate Resolves(step: Step, id: string) {
    match step.outcome
    case Resolved(other, _) => other == id
    case GotLease(lease) => lease.requestId == id
    case GotGrant(grant) => grant.requestId == id
    case _ => false
  }

  predicate ResolvesNone(step: Step) {
    !step.outcome.Resolved? && !step.outcome.GotLease? && !step.outcome.GotGrant?
  }

  /** The lifetime is the one the human chose; without a choice the one asked for; without either a default one. */
  predicate Lives(lifetime: int, chosen: int, requested: int, default: int) {
    && 0 < lifetime <= 24 * 3600 * SECOND
    && (chosen > 0 ==> lifetime == chosen)
    && (chosen <= 0 && requested > 0 ==> lifetime == requested)
    && (chosen <= 0 && requested <= 0 ==> lifetime == default)
  }

  /** The step grants what the request asked for, in time, and for at most a day. */
  predicate Answers(r: Request, step: Step) {
    && step.event.now < r.expiresAt
    && match step.outcome
       case Resolved(id, status) =>
         && id == r.id
         && ((status == Denied && step.event.op == Deny(id))
             || (status == Fulfilled && r.kind == SecretKind && step.event.op == FulfillSecret(id, true)))
       case GotLease(l) =>
         && step.event.op.ApproveLease? && step.event.op.id == r.id == l.requestId && l.id == step.event.op.freshId
         && r.kind == LeaseKind && l.revokedAt == None
         && l.session == r.session && l.environment == r.environment && l.commands == r.commands
         && l.createdAt == step.event.now
         && Lives(l.expiresAt - step.event.now, step.event.op.ttl, r.requestedTtl, 3600 * SECOND)
       case GotGrant(g) =>
         && step.event.op.ApproveWorkspace? && step.event.op.id == r.id == g.requestId && g.id == step.event.op.freshId
         && r.kind == WorkspaceKind && g.revokedAt == None && g.pausedAt == None
         && g.session == r.session && g.environment == r.environment
         && g.createdAt == step.event.now
         && Lives(g.expiresAt - step.event.now, step.event.op.ttl, r.requestedTtl, 2 * 3600 * SECOND)
       case _ => false
  }

  /** The status that a resolving step gives its request, and the lease or grant that came of it. */
  predicate Records(r: Request, step: Step) {
    && r.resolvedAt == Some(step.event.now) && Final(r.status)
    && match step.outcome
       case Resolved(_, status) => r.status == status && r.resulting == ""
       case GotLease(l) => r.status == Approved && r.resulting == l.id
       case GotGrant(g) => r.status == Approved && r.resulting == g.id
       case _ => false
  }

  /** Time left a pending request behind: it has lapsed by now. */
  predicate Lapses(r: Request, now: int) {
    r.expiresAt <= now && r.status == Expired && r.resolvedAt == Some(now) && r.resulting == ""
  }

  /** The requests after a step: stale ones expire, one may be added, or one pending one settled. */
  datatype Effect = Nothing | Expiry | Opening | Settling(k: nat)

  predicate Fits(effect: Effect, before: seq<Request>, after: seq<Request>, step: Step) {
    match effect
    case Nothing => after == before && ResolvesNone(step)
    case Expiry => after == Expire(before, step.event.now) && ResolvesNone(step)
    case Opening =>
      && |after| == |before| + 1 && after[..|before|] == Expire(before, step.event.now)
          && after[|before|].status == Pending
      && Opens(step, after[|before|]) && ResolvesNone(step) && FreshId(step.event.op) == Some(after[|before|].id)
      && PendingCount(after[..|before|], after[|before|].session) < MAX_PENDING_SESSION
      && FirstSame(after[..|before|], after[|before|], 0) == |before|
    case Settling(k) =>
      && k < |before| && |after| == |before|
          && (forall j :: 0 <= j < |before| && j != k ==> after[j] == ExpiredAt(before[j], step.event.now))
      && before[k].status == Pending && Final(after[k].status) && Asked(after[k]) == Asked(before[k])
      && Resolves(step, before[k].id) && Answers(Asked(before[k]), step)
  }

  lemma SettleFits(before: seq<Request>, k: nat, status: Status, resulting: string, step: Step)
    requires k < |before| && ExpiredAt(before[k], step.event.now).status == Pending
    requires Final(status) && Resolves(step, before[k].id) && Answers(Asked(before[k]), step)
    ensures Fits(Settling(k), before, Settle(Expire(before, step.event.now), k, status, resulting, step.event.now),
        step)
  {
    hide Answers, Resolves, Expire, Opens, PendingCount, FirstSame;
    var rs := Expire(before, step.event.now);
    assert rs[k] == before[k];
    var after := Settle(rs, k, status, resulting, step.event.now);
    assert forall j :: 0 <= j < |before| && j != k ==> after[j] == rs[j] == ExpiredAt(before[j], step.event.now);
    assert Asked(after[k]) == Asked(before[k]);
  }

  lemma CreateFits(st: State, root: string, e: Event) returns (effect: Effect)
    requires e.op.Create?
    ensures Fits(effect, st.requests, Next(st, root, e).0.requests, Taken(st, root, e))
  {
    var rs := Expire(st.requests, e.now);
    var same := FirstSame(rs, e.op.candidate, 0);
    if same < |rs| {
      return Expiry;
    }
    if PendingCount(rs, e.op.candidate.session) >= MAX_PENDING_SESSION {
      return Nothing;
    }
    var r := NewRequest(e.op.candidate, e.op.freshId, e.now);
    assert (rs + [r])[..|rs|] == rs;
    SameForBoth(rs, e.op.candidate, r, 0);
    return Opening;
  }

  lemma {:induction false} SameForBoth(rs: seq<Request>, a: Request, b: Request, i: nat)
    requires i <= |rs| && a.session == b.session && a.kind == b.kind && a.environment == b.environment
    requires a.secretAlias == b.secretAlias && a.secretKey == b.secretKey && a.commands == b.commands
    ensures FirstSame(rs, a, i) == FirstSame(rs, b, i)
    decreases |rs| - i
  {
    if i < |rs| {
      SameForBoth(rs, a, b, i + 1);
    }
  }

  lemma PlainFits(st: State, root: string, e: Event) returns (effect: Effect)
    requires e.op.FulfillSecret? || e.op.Deny?
    ensures Fits(effect, st.requests, Next(st, root, e).0.requests, Taken(st, root, e))
  {
    hide IndexOf;
    var rs := Expire(st.requests, e.now);
    var kind := if e.op.Deny? then None else Some(SecretKind);
    if Resolvable(rs, e.op.id, kind).Some? || (e.op.FulfillSecret? && !e.op.commitSucceeds) {
      return Nothing;
    }
    var k := IndexOf(rs, RequestId, e.op.id);
    SettleFits(st.requests, k, if e.op.Deny? then Denied else Fulfilled, rs[k].resulting, Taken(st, root, e));
    return Settling(k);
  }

  lemma LeaseFits(st: State, root: string, e: Event) returns (effect: Effect)
    requires e.op.ApproveLease?
    ensures Fits(effect, st.requests, Next(st, root, e).0.requests, Taken(st, root, e))
  {
    hide IndexOf;
    var rs := Expire(st.requests, e.now);
    if Resolvable(rs, e.op.id, Some(LeaseKind)).Some? {
      return Nothing;
    }
    var k := IndexOf(rs, RequestId, e.op.id);
    if ChosenTtl(e.op.ttl, rs[k].requestedTtl, DEFAULT_LEASE_TTL) > MAX_LEASE_TTL {
      return Nothing;
    }
    SettleFits(st.requests, k, Approved, e.op.freshId, Taken(st, root, e));
    return Settling(k);
  }

  lemma WorkspaceFits(st: State, root: string, e: Event) returns (effect: Effect)
    requires e.op.ApproveWorkspace?
    ensures Fits(effect, st.requests, Next(st, root, e).0.requests, Taken(st, root, e))
  {
    hide IndexOf;
    var rs := Expire(st.requests, e.now);
    if Resolvable(rs, e.op.id, Some(WorkspaceKind)).Some? {
      return Nothing;
    }
    var k := IndexOf(rs, RequestId, e.op.id);
    if ChosenTtl(e.op.ttl, rs[k].requestedTtl, DEFAULT_WORKSPACE_TTL) > MAX_LEASE_TTL {
      return Nothing;
    }
    SettleFits(st.requests, k, Approved, e.op.freshId, Taken(st, root, e));
    return Settling(k);
  }

  lemma OtherFits(st: State, root: string, e: Event) returns (effect: Effect)
    requires !e.op.Create? && !e.op.FulfillSecret? && !e.op.Deny? && !e.op.ApproveLease? && !e.op.ApproveWorkspace?
    ensures Fits(effect, st.requests, Next(st, root, e).0.requests, Taken(st, root, e))
  {
    hide IndexOf;
    return if e.op.ListRequests? then Expiry else Nothing;
  }

  lemma EffectOf(st: State, root: string, e: Event) returns (effect: Effect)
    ensures Fits(effect, st.requests, Next(st, root, e).0.requests, Taken(st, root, e))
  {
    hide *;
    match e.op
    case Create(_, _) => effect := CreateFits(st, root, e);
    case FulfillSecret(_, _) => effect := PlainFits(st, root, e);
    case Deny(_) => effect := PlainFits(st, root, e);
    case ApproveLease(_, _, _) => effect := LeaseFits(st, root, e);
    case ApproveWorkspace(_, _, _) => effect := WorkspaceFits(st, root, e);
    case _ => effect := OtherFits(st, root, e);
  }

  /** What every step does to the requests, whatever the effect. */
  ghost predicate Advances(before: seq<Request>, after: seq<Request>, step: Step) {
    && SameAsked(before, after)
    && (forall k :: 0 <= k < |before| ==>
        (Final(after[k].status) <==> Final(before[k].status) || Resolves(step, before[k].id)))
    && (forall k :: 0 <= k < |before| && Resolves(step, before[k].id) ==>
        before[k].status == Pending && Answers(Asked(before[k]), step))
    && (forall id :: Resolves(step, id) ==> HasRequest(before, id))
    && (|after| > |before| ==>
          |after| == |before| + 1 && after[|before|].status == Pending && ResolvesNone(step)
          && Opens(step, after[|before|]) && FreshId(step.event.op) == Some(after[|before|].id))
  }

  predicate HasRequest(requests: seq<Request>, id: string) {
    exists k :: 0 <= k < |requests| && requests[k].id == id
  }

  predicate DistinctIds(requests: seq<Request>) {
    forall j, k :: 0 <= j < k < |requests| ==> requests[j].id != requests[k].id
  }

  lemma EffectAdvances(effect: Effect, before: seq<Request>, after: seq<Request>, step: Step)
    requires Fits(effect, before, after, step) && DistinctIds(before)
    ensures Advances(before, after, step)
  {
    hide Expire, Answers, Opens, PendingCount, FirstSame;
    match effect
    case Nothing =>
    case Expiry =>
    case Opening =>
      assert forall k :: 0 <= k < |before| ==> after[k] == after[..|before|][k];
    case Settling(k) =>
      assert before[k].id in set r | r in before :: r.id;
      forall j | 0 <= j < |before| && j != k ensures !Resolves(step, before[j].id) {
        assert before[j].id != before[k].id;
      }
  }

  // ----- Whole runs -----

  ghost predicate Opened(log: seq<Step>, r: Request) {
    exists i :: 0 <= i < |log| && Opens(log[i], r)
  }

  ghost predicate ResolvedIn(log: seq<Step>, id: string) {
    exists i :: 0 <= i < |log| && Resolves(log[i], id)
  }

  /** A step that resolves a request answers one that was opened earlier, under an identifier drawn for it. */
  ghost predicate Justified(log: seq<Step>, j: int, id: string)
    requires 0 <= j < |log|
  {
    exists i :: 0 <= i < j && log[i].outcome.Created? && Opens(log[i], log[i].outcome.request)
      && log[i].outcome.request.id == id && Answers(log[i].outcome.request, log[j])
  }

  /** The requests in the state are the ones that were opened, and are resolved exactly when a step resolved them. */
  ghost predicate RequestsMatch(requests: seq<Request>, log: seq<Step>) {
    && DistinctIds(requests)
    && (forall k :: 0 <= k < |requests| ==> Opened(log, requests[k]))
    && (forall k :: 0 <= k < |requests| ==> (Final(requests[k].status) <==> ResolvedIn(log, requests[k].id)))
    && (forall id :: ResolvedIn(log, id) ==> HasRequest(requests, id))
  }

  ghost predicate OnceEach(log: seq<Step>) {
    && (forall i, j, id :: 0 <= i < j < |log| && Resolves(log[i], id) ==> !Resolves(log[j], id))
    && (forall j, id :: 0 <= j < |log| && Resolves(log[j], id) ==> Justified(log, j, id))
  }

  lemma ResolvedGrows(log: seq<Step>, step: Step, id: string)
    ensures ResolvedIn(log + [step], id) <==> ResolvedIn(log, id) || Resolves(step, id)
  {
    var more := log + [step];
    assert more[|log|] == step && forall j :: 0 <= j < |log| ==> more[j] == log[j];
    if Resolves(step, id) {
      assert Resolves(more[|log|], id);
    }
    if ResolvedIn(log, id) {
      var j :| 0 <= j < |log| && Resolves(log[j], id);
      assert Resolves(more[j], id);
    }
  }

  lemma OpenedStays(log: seq<Step>, step: Step, r: Request, after: Request)
    requires (Opened(log, r) && Asked(r) == Asked(after)) || Opens(step, after)
    ensures Opened(log + [step], after)
  {
    var more := log + [step];
    if Opens(step, after) {
      assert Opens(more[|log|], after);
    } else {
      var i :| 0 <= i < |log| && Opens(log[i], r);
      assert Asked(r).id == after.id && Asked(r).expiresAt == after.expiresAt;
      assert Opens(more[i], after);
    }
  }

  lemma RequestsStayMatched(before: seq<Request>, after: seq<Request>, log: seq<Step>, step: Step)
    requires RequestsMatch(before, log) && Advances(before, after, step) && Unused(log, step.event.op)
    ensures RequestsMatch(after, log + [step])
  {
    hide Resolves, Opens, Answers, Asked, Final;
    SameAskedIds(before, after);
    StillDistinct(before, after, log, step);
    forall k | 0 <= k < |after| ensures Opened(log + [step], after[k]) {
      OpenedStays(log, step, if k < |before| then before[k] else after[k], after[k]);
    }
    forall k | 0 <= k < |after| ensures Final(after[k].status) <==> ResolvedIn(log + [step], after[k].id) {
      ResolvedGrows(log, step, after[k].id);
      if k == |before| {
        NewIsUnresolved(before, after, log, step);
      }
    }
    forall id | ResolvedIn(log + [step], id) ensures HasRequest(after, id) {
      ResolvedGrows(log, step, id);
      var k :| 0 <= k < |before| && before[k].id == id;
      assert after[k].id == id;
    }
  }

  lemma SameAskedIds(before: seq<Request>, after: seq<Request>)
    requires SameAsked(before, after)
    ensures forall k :: 0 <= k < |before| ==> after[k].id == before[k].id
  {
    forall k | 0 <= k < |before| ensures after[k].id == before[k].id {
      assert Asked(after[k]).id == Asked(before[k]).id;
    }
  }

  lemma StillDistinct(before: seq<Request>, after: seq<Request>, log: seq<Step>, step: Step)
    requires RequestsMatch(before, log) && Advances(before, after, step) && Unused(log, step.event.op)
    ensures DistinctIds(after)
  {
    hide Resolves, Answers;
    SameAskedIds(before, after);
    forall j | 0 <= j < |before| && |after| > |before| ensures before[j].id != after[|before|].id {
      assert Opened(log, before[j]);
      var i :| 0 <= i < |log| && Opens(log[i], before[j]);
    }
  }

  lemma NewIsUnresolved(before: seq<Request>, after: seq<Request>, log: seq<Step>, step: Step)
    requires RequestsMatch(before, log) && Advances(before, after, step) && Unused(log, step.event.op)
    requires |after| > |before|
    ensures
      && !Final(after[|before|].status)
      && !ResolvedIn(log, after[|before|].id)
      && !Resolves(step, after[|before|].id)
  {
    hide Opens, Answers;
    SameAskedIds(before, after);
    StillDistinct(before, after, log, step);
    assert forall k :: 0 <= k < |before| ==> before[k].id == after[k].id != after[|before|].id;
    assert !HasRequest(before, after[|before|].id);
  }

  lemma NotAgain(before: seq<Request>, after: seq<Request>, log: seq<Step>, step: Step, id: string)
    requires RequestsMatch(before, log) && Advances(before, after, step) && ResolvedIn(log, id)
    ensures !Resolves(step, id)
  {
    hide Resolves, Answers, Opens;
    assert HasRequest(before, id);
    var k :| 0 <= k < |before| && before[k].id == id;
    assert Final(before[k].status);
  }

  lemma StillOnceEach(before: seq<Request>, after: seq<Request>, log: seq<Step>, step: Step)
    requires RequestsMatch(before, log) && Advances(before, after, step) && OnceEach(log)
    ensures OnceEach(log + [step])
  {
    hide Resolves, Opens, Answers;
    var more := log + [step];
    forall i, j, id | 0 <= i < j < |more| && Resolves(more[i], id) ensures !Resolves(more[j], id) {
      if j == |log| {
        NotAgain(before, after, log, step, id);
      }
    }
    forall j, id | 0 <= j < |more| && Resolves(more[j], id) ensures Justified(more, j, id) {
      if j < |log| {
        assert Justified(log, j, id);
        var i :| 0 <= i < j && log[i].outcome.Created? && Opens(log[i], log[i].outcome.request)
          && log[i].outcome.request.id == id && Answers(log[i].outcome.request, log[j]);
        assert more[i] == log[i];
      } else {
        StepJustified(before, after, log, step, id);
      }
    }
  }

  lemma StepJustified(before: seq<Request>, after: seq<Request>, log: seq<Step>, step: Step, id: string)
    requires RequestsMatch(before, log) && Advances(before, after, step) && Resolves(step, id)
    ensures Justified(log + [step], |log|, id)
  {
    hide Resolves, Answers;
    assert HasRequest(before, id);
    var k :| 0 <= k < |before| && before[k].id == id;
    assert Opened(log, before[k]);
    var i :| 0 <= i < |log| && Opens(log[i], before[k]);
    var more := log + [step];
    assert more[i] == log[i] && log[i].outcome.request == Asked(before[k]);
    assert Opens(more[i], more[i].outcome.request);
  }

  lemma {:induction false} RequestsMatchTheLog(root: string, events: seq<Event>)
    requires FreshIds(events)
    ensures RequestsMatch(After(root, events).requests, Log(root, events)) && OnceEach(Log(root, events))
  {
    hide Next, FreshIds, Unused, Fits, Advances, Taken;
    if events == [] {
    } else {
      LastStep(root, events);
      var before := events[..|events| - 1];
      RequestsMatchTheLog(root, before);
      RequestsMatchNext(After(root, before), Log(root, before), root, events[|events| - 1]);
    }
  }

  lemma RequestsMatchNext(st: State, log: seq<Step>, root: string, e: Event)
    requires RequestsMatch(st.requests, log) && OnceEach(log) && Unused(log, e.op)
    ensures var after := Next(st, root, e).0.requests;
            var more := log + [Taken(st, root, e)];
            RequestsMatch(after, more) && OnceEach(more)
  {
    hide Next, Unused, Fits, Advances, Taken, OnceEach;
    var effect := EffectOf(st, root, e);
    var after, step := Next(st, root, e).0.requests, Taken(st, root, e);
    EffectAdvances(effect, st.requests, after, step);
    assert Unused(log, step.event.op) by { TakenEvent(st, root, e); }
    RequestsStayMatched(st.requests, after, log, step);
    StillOnceEach(st.requests, after, log, step);
  }

  lemma TakenEvent(st: State, root: string, e: Event)
    ensures Taken(st, root, e).event == e
  {
  }

  // ----- What a run promises -----

  /** A request is resolved at most once, before its deadline, with what it asked for. */
  lemma ResolvedOnce(root: string, events: seq<Event>, i: nat, j: nat, id: string)
    requires FreshIds(events) && i < j < |events|
    requires Resolves(Log(root, events)[j], id)
    ensures !Resolves(Log(root, events)[i], id)
  {
    hide *;
    RequestsMatchTheLog(root, events);
    OnceMeans(Log(root, events), i, j, id);
  }

  lemma OnceMeans(log: seq<Step>, i: nat, j: nat, id: string)
    requires OnceEach(log) && i < j < |log| && Resolves(log[j], id)
    ensures !Resolves(log[i], id) && Justified(log, j, id)
  {
    hide Resolves, Justified;
  }

  /** Leases and grants come out of requests: the opening step, and how the issuing step answers it. */
  lemma AnswersARequest(root: string, events: seq<Event>, j: nat, id: string) returns (i: nat)
    requires FreshIds(events) && j < |events| && Resolves(Log(root, events)[j], id)
    ensures var log := Log(root, events);
            && i < j
            && log[i].outcome.Created?
            && log[i].outcome.request.id == id
            && Opens(log[i], log[i].outcome.request)
            && Answers(log[i].outcome.request, log[j])
  {
    hide Next, After, Log, Opens, Answers, Resolves, RequestsMatch;
    RequestsMatchTheLog(root, events);
    assert Justified(Log(root, events), j, id);
    i :| 0 <= i < j && Log(root, events)[i].outcome.Created?
        && Opens(Log(root, events)[i], Log(root, events)[i].outcome.request)
      && Log(root, events)[i].outcome.request.id == id
          && Answers(Log(root, events)[i].outcome.request, Log(root, events)[j]);
  }

  /** A request that is no longer pending never changes again, and none ever disappears. */
  lemma {:induction false} SettledForGood(root: string, events: seq<Event>, n: nat, k: nat)
    requires n <= |events| && k < |After(root, events[..n]).requests|
    ensures k < |After(root, events).requests|
    ensures var r := After(root, events[..n]).requests[k];
            && Asked(After(root, events).requests[k]) == Asked(r)
            && (r.status != Pending ==> After(root, events).requests[k] == r)
  {
    hide Next, Fits, Taken;
    if n == |events| {
      assert events[..n] == events;
    } else {
      var before := events[..|events| - 1];
      assert before[..n] == events[..n];
      SettledForGood(root, before, n, k);
      var effect := EffectOf(After(root, before), root, events[|events| - 1]);
      SettledByEffect(effect, After(root, before).requests, After(root, events).requests,
          Taken(After(root, before), root, events[|events| - 1]), k);
    }
  }

  lemma SettledByEffect(effect: Effect, before: seq<Request>, after: seq<Request>, step: Step, k: nat)
    requires Fits(effect, before, after, step) && k < |before|
    ensures
      && k < |after|
      && Asked(after[k]) == Asked(before[k])
      && (before[k].status != Pending ==> after[k] == before[k])
  {
    hide Answers, Opens, Resolves, PendingCount, FirstSame, Expire;
    if effect.Opening? {
      assert after[k] == after[..|before|][k];
    }
  }

  // ----- Limits -----

  /** At most 32 pending requests in a session, no two of them for the same thing. */
  ghost predicate WithinLimits(requests: seq<Request>) {
    && (forall session :: PendingCount(requests, session) <= MAX_PENDING_SESSION)
    && (forall j, k :: 0 <= j < k < |requests| ==> !Duplicates(requests[j], requests[k]))
  }

  predicate Duplicates(a: Request, b: Request) {
    a.status == Pending && b.status == Pending && a.session == b.session && SameRequest(a, b)
  }

  predicate NoMorePending(before: seq<Request>, after: seq<Request>) {
    && |after| == |before|
    && forall k :: 0 <= k < |before| ==>
         Asked(after[k]) == Asked(before[k]) && (after[k].status == Pending ==> before[k].status == Pending)
  }

  lemma {:induction false} CountFalls(before: seq<Request>, after: seq<Request>, session: string)
    requires NoMorePending(before, after)
    ensures PendingCount(after, session) <= PendingCount(before, session)
  {
    if before == [] {
    } else {
      var n := |before| - 1;
      CountFalls(before[..n], after[..n], session);
      assert Asked(after[n]).session == Asked(before[n]).session;
    }
  }

  lemma SameAskedSame(a: Request, b: Request, c: Request, d: Request)
    requires Asked(a) == Asked(c) && Asked(b) == Asked(d)
    ensures SameRequest(a, b) <==> SameRequest(c, d)
    ensures a.session == c.session && b.session == d.session
  {
    hide JoinCommands;
    assert Asked(a).commands == Asked(c).commands && Asked(b).commands == Asked(d).commands;
    assert Asked(a).kind == Asked(c).kind && Asked(b).kind == Asked(d).kind;
    assert Asked(a).environment == Asked(c).environment && Asked(b).environment == Asked(d).environment;
    assert Asked(a).secretAlias == Asked(c).secretAlias && Asked(b).secretAlias == Asked(d).secretAlias;
    assert Asked(a).secretKey == Asked(c).secretKey && Asked(b).secretKey == Asked(d).secretKey;
    assert Asked(a).session == Asked(c).session && Asked(b).session == Asked(d).session;
  }

  lemma LimitsWithFewer(before: seq<Request>, after: seq<Request>)
    requires WithinLimits(before) && NoMorePending(before, after)
    ensures WithinLimits(after)
  {
    hide Asked, SameRequest, PendingCount;
    forall session ensures PendingCount(after, session) <= MAX_PENDING_SESSION {
      CountFalls(before, after, session);
    }
    forall j, k | 0 <= j < k < |after| ensures !Duplicates(after[j], after[k]) {
      assert !Duplicates(before[j], before[k]);
      SameAskedSame(after[j], after[k], before[j], before[k]);
    }
  }

  lemma LimitsWithOneMore(rs: seq<Request>, r: Request)
    requires WithinLimits(rs) && r.status == Pending
    requires PendingCount(rs, r.session) < MAX_PENDING_SESSION && FirstSame(rs, r, 0) == |rs|
    ensures WithinLimits(rs + [r])
  {
    hide SameRequest, FirstSame;
    var after := rs + [r];
    assert after[..|rs|] == rs;
    forall session ensures PendingCount(after, session) <= MAX_PENDING_SESSION {
      assert PendingCount(rs, session) <= MAX_PENDING_SESSION;
    }
    forall j, k | 0 <= j < k < |after| ensures !Duplicates(after[j], after[k]) {
      assert k < |rs| ==> !Duplicates(rs[j], rs[k]);
      assert !(IsPendingOf(after[j], r.session) && SameRequest(after[j], r)) || k < |rs|;
    }
  }

  lemma LimitsKept(effect: Effect, before: seq<Request>, after: seq<Request>, step: Step)
    requires WithinLimits(before) && Fits(effect, before, after, step)
    ensures WithinLimits(after)
  {
    hide WithinLimits, Expire, Answers, Opens, Resolves, PendingCount, FirstSame;
    LimitsWithFewer(before, Expire(before, step.event.now));
    if effect.Settling? {
      LimitsWithFewer(before, after);
    } else if effect.Opening? {
      assert after == after[..|before|] + [after[|before|]];
      LimitsWithOneMore(after[..|before|], after[|before|]);
    }
  }

  lemma {:induction false} LimitsAlwaysHold(root: string, events: seq<Event>)
    ensures WithinLimits(After(root, events).requests)
  {
    hide Next, Fits, Taken;
    if events == [] {
    } else {
      hide WithinLimits;
      var before := events[..|events| - 1];
      LimitsAlwaysHold(root, before);
      var effect := EffectOf(After(root, before), root, events[|events| - 1]);
      LimitsKept(effect, After(root, before).requests, After(root, events).requests,
          Taken(After(root, before), root, events[|events| - 1]));
    }
  }
}
