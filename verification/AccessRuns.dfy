/** Runs of the access manager: the state a sequence of events leads to, and what each event returned. */
module AccessRuns {
  import opened AccessSpec
  import opened KeyedLists
  import opened Options

  datatype Step = Step(event: Event, outcome: Outcome)

  function After(root: string, events: seq<Event>): State {
    if events == [] then EMPTY
    else Next(After(root, events[..|events| - 1]), root, events[|events| - 1]).0
  }

  function Taken(st: State, root: string, e: Event): Step {
    Step(e, Next(st, root, e).1)
  }

  function Log(root: string, events: seq<Event>): (log: seq<Step>)
    ensures |log| == |events|
  {
    hide *;
    if events == [] then []
    else
      var before := events[..|events| - 1];
      Log(root, before) + [Taken(After(root, before), root, events[|events| - 1])]
  }

  lemma {:induction false} LogEvents(root: string, events: seq<Event>, i: nat)
    requires i < |events|
    ensures Log(root, events)[i].event == events[i]
  {
    hide Next, After;
    if i < |events| - 1 {
      LogEvents(root, events[..|events| - 1], i);
    }
  }

  function FreshId(op: Op): Option<string> {
    match op
    case Create(_, id) => Some(id)
    case ApproveLease(_, _, id) => Some(id)
    case ApproveWorkspace(_, _, id) => Some(id)
    case _ => None
  }

  /** No identifier was drawn before. */
  predicate Unused(log: seq<Step>, op: Op) {
    FreshId(op).Some? ==> forall i :: 0 <= i < |log| ==> FreshId(log[i].event.op) != FreshId(op)
  }

  /** Identifiers are drawn at random, so no two draws agree. */
  ghost predicate FreshIds(events: seq<Event>) {
    forall i, j :: 0 <= i < j < |events| && FreshId(events[j].op).Some? ==>
        FreshId(events[i].op) != FreshId(events[j].op)
  }

  /** One more event, seen from the run before it. */
  lemma LastStep(root: string, events: seq<Event>)
    requires events != [] && FreshIds(events)
    ensures var before := events[..|events| - 1]; FreshIds(before) && Unused(Log(root, before), events[|events| - 1].op)
    ensures var before := events[..|events| - 1];
            var r := Next(After(root, before), root, events[|events| - 1]);
            After(root, events) == r.0 && Log(root, events) == Log(root, before) + [Step(events[|events| - 1], r.1)]
  {
    hide Next;
    var before := events[..|events| - 1];
    forall i | 0 <= i < |before| ensures Log(root, before)[i].event == events[i] {
      LogEvents(root, before, i);
    }
  }

  /** Requests are created and resolved without touching leases or grants, unless the resolution issues one. */
  lemma RequestEffects(st: State, root: string, id: string, now: int)
    ensures forall candidate :: SameAccess(st, CreateRequest(st, candidate, id, now))
    ensures forall kind, status, commits :: SameAccess(st, ResolvePlain(st, id, kind, status, commits, now))
  {
    hide Expire, FirstSame, PendingCount, JoinCommands, IndexOf, Resolvable;
  }

  predicate SameAccess(st: State, r: (State, Outcome)) {
    r.0.leases == st.leases && r.0.grants == st.grants && !r.1.GotLease? && !r.1.GotGrant? && !r.1.Done?
  }

  predicate NewLease(lease: Lease, requestId: string, id: string) {
    lease.id == id && lease.requestId == requestId && lease.revokedAt == None
  }

  predicate NewGrant(grant: Grant, requestId: string, id: string) {
    grant.id == id && grant.requestId == requestId && grant.revokedAt == None && grant.pausedAt == None
  }

  lemma IssueEffects(st: State, root: string, id: string, ttl: int, freshId: string, now: int)
    ensures var r := ResolveLease(st, id, ttl, freshId, now);
            && r.0.grants == st.grants
            && if r.1.GotLease? then r.0.leases == st.leases + [r.1.lease] && NewLease(r.1.lease, id, freshId)
                else r.1.Refused?
    ensures var r := ResolveWorkspace(st, root, id, ttl, freshId, now);
            && r.0.leases == st.leases
            && if r.1.GotGrant? then r.0.grants == st.grants + [r.1.grant] && NewGrant(r.1.grant, id, freshId)
                else r.1.Refused?
  {
    hide Expire, IndexOf, Resolvable, Settle;
  }

  /** What an operation can do to the leases: nothing, add one, or mark one as revoked. */
  lemma LeaseEffect(st: State, root: string, e: Event)
    ensures var r := Next(st, root, e);
            r.1.GotLease? ==>
              && r.0.leases == st.leases + [r.1.lease]
              && r.1.lease.revokedAt == None
              && FreshId(e.op) == Some(r.1.lease.id)
              && e.op.ApproveLease?
              && r.1.lease.requestId == e.op.id
    ensures var r := Next(st, root, e); !r.1.GotLease? && !(e.op.Revoke? && r.1 == Done) ==> r.0.leases == st.leases
    ensures var r := Next(st, root, e);
            e.op.Revoke? && r.1 == Done ==>
              && IndexOf(st.leases, LeaseId, e.op.id) < |st.leases|
              && RevokedOne(st.leases, r.0.leases, IndexOf(st.leases, LeaseId, e.op.id))
  {
    hide CreateRequest, ResolvePlain, ResolveLease, ResolveWorkspace, Expire, IndexOf;
    match e.op
    case Create(_, freshId) => RequestEffects(st, root, freshId, e.now);
    case FulfillSecret(id, _) => RequestEffects(st, root, id, e.now);
    case Deny(id) => RequestEffects(st, root, id, e.now);
    case ApproveLease(id, ttl, freshId) => IssueEffects(st, root, id, ttl, freshId, e.now);
    case ApproveWorkspace(id, ttl, freshId) => IssueEffects(st, root, id, ttl, freshId, e.now);
    case _ =>
  }

  predicate RevokedOne(before: seq<Lease>, after: seq<Lease>, k: int) {
    && 0 <= k < |before| == |after| && after[k].revokedAt.Some?
        && after[k] == before[k].(revokedAt := after[k].revokedAt)
    && forall j :: 0 <= j < |before| && j != k ==> after[j] == before[j]
  }

  // ----- Leases -----

  predicate Revokes(step: Step, id: string) {
    step.event.op.Revoke? && step.event.op.id == id && step.outcome == Done
  }

  ghost predicate Revoked(log: seq<Step>, id: string) {
    exists j :: 0 <= j < |log| && Revokes(log[j], id)
  }

  predicate Issues(step: Step, lease: Lease) {
    step.outcome == GotLease(lease.(revokedAt := None))
  }

  ghost predicate Issued(log: seq<Step>, lease: Lease) {
    exists i :: 0 <= i < |log| && Issues(log[i], lease)
  }

  predicate Holds(leases: seq<Lease>, lease: Lease) {
    exists k :: 0 <= k < |leases| && leases[k].(revokedAt := None) == lease
  }

  predicate HasId(leases: seq<Lease>, id: string) {
    exists k :: 0 <= k < |leases| && leases[k].id == id
  }

  /** Every lease in the state was issued, and is revoked exactly when the log says so. */
  ghost predicate Backed(leases: seq<Lease>, log: seq<Step>) {
    forall k :: 0 <= k < |leases| ==>
        Issued(log, leases[k]) && (leases[k].revokedAt.Some? <==> Revoked(log, leases[k].id))
  }

  /** Every lease that was issued is in the state, under the identifier drawn for it. */
  ghost predicate Kept(leases: seq<Lease>, log: seq<Step>) {
    forall i :: 0 <= i < |log| && log[i].outcome.GotLease? ==>
      Holds(leases, log[i].outcome.lease) && FreshId(log[i].event.op) == Some(log[i].outcome.lease.id)
  }

  predicate Distinct(leases: seq<Lease>) {
    forall j, k :: 0 <= j < k < |leases| ==> leases[j].id != leases[k].id
  }

  ghost predicate RevokesOnlyKept(leases: seq<Lease>, log: seq<Step>) {
    forall id :: Revoked(log, id) ==> HasId(leases, id)
  }

  ghost predicate LeasesMatch(leases: seq<Lease>, log: seq<Step>) {
    Backed(leases, log) && Kept(leases, log) && Distinct(leases) && RevokesOnlyKept(leases, log)
  }

  lemma LeasesStayMatched(st: State, log: seq<Step>, root: string, e: Event)
    requires LeasesMatch(st.leases, log) && Unused(log, e.op)
    ensures LeasesMatch(Next(st, root, e).0.leases, log + [Step(e, Next(st, root, e).1)])
  {
    hide Next;
    LeaseEffect(st, root, e);
    var r := Next(st, root, e);
    var step := Step(e, r.1);
    if r.1.GotLease? {
      LeaseAdded(st.leases, log, step);
    } else if e.op.Revoke? && r.1 == Done {
      LeaseMarked(st.leases, r.0.leases, IndexOf(st.leases, LeaseId, e.op.id), log, step);
    } else {
      LeasesUntouched(st.leases, log, step);
    }
  }

  lemma LogGrows(log: seq<Step>, step: Step, id: string)
    ensures Revoked(log + [step], id) <==> Revoked(log, id) || Revokes(step, id)
  {
    var more := log + [step];
    assert more[|log|] == step && forall j :: 0 <= j < |log| ==> more[j] == log[j];
    if Revokes(step, id) {
      assert Revokes(more[|log|], id);
    }
    if Revoked(log, id) {
      var j :| 0 <= j < |log| && Revokes(log[j], id);
      assert Revokes(more[j], id);
    }
  }

  lemma IssuedStays(log: seq<Step>, step: Step, lease: Lease)
    requires Issued(log, lease) || Issues(step, lease)
    ensures Issued(log + [step], lease)
  {
    var more := log + [step];
    if Issues(step, lease) {
      assert Issues(more[|log|], lease);
    } else {
      var i :| 0 <= i < |log| && Issues(log[i], lease);
      assert Issues(more[i], lease);
    }
  }

  lemma LeasesUntouched(leases: seq<Lease>, log: seq<Step>, step: Step)
    requires LeasesMatch(leases, log)
    requires !step.outcome.GotLease? && !(step.event.op.Revoke? && step.outcome == Done)
    ensures LeasesMatch(leases, log + [step])
  {
    forall k | 0 <= k < |leases|
      ensures Issued(log + [step], leases[k]) && (leases[k].revokedAt.Some? <==> Revoked(log + [step], leases[k].id))
    {
      IssuedStays(log, step, leases[k]);
      LogGrows(log, step, leases[k].id);
    }
    KeptAfter(leases, leases, log, step);
    RevokesOnlyKeptAfter(leases, leases, log, step);
  }

  lemma LeaseAdded(leases: seq<Lease>, log: seq<Step>, step: Step)
    requires LeasesMatch(leases, log) && Unused(log, step.event.op)
    requires step.outcome.GotLease? && step.outcome.lease.revokedAt == None
    requires FreshId(step.event.op) == Some(step.outcome.lease.id)
    ensures LeasesMatch(leases + [step.outcome.lease], log + [step])
  {
    var lease := step.outcome.lease;
    var after := leases + [lease];
    forall k | 0 <= k < |leases| ensures leases[k].id != lease.id {
      var i :| 0 <= i < |log| && Issues(log[i], leases[k]);
    }
    assert !HasId(leases, lease.id);
    assert after[|leases|].(revokedAt := None) == lease;
    forall k | 0 <= k < |after|
      ensures Issued(log + [step], after[k]) && (after[k].revokedAt.Some? <==> Revoked(log + [step], after[k].id))
    {
      assert Issues(step, lease);
      IssuedStays(log, step, after[k]);
      LogGrows(log, step, after[k].id);
    }
    KeptAfter(leases, after, log, step);
    RevokesOnlyKeptAfter(leases, after, log, step);
  }

  lemma LeaseMarked(leases: seq<Lease>, after: seq<Lease>, at: nat, log: seq<Step>, step: Step)
    requires LeasesMatch(leases, log) && RevokedOne(leases, after, at)
    requires step.event.op.Revoke? && step.outcome == Done && leases[at].id == step.event.op.id
    ensures LeasesMatch(after, log + [step])
  {
    forall k | 0 <= k < |after|
      ensures Issued(log + [step], after[k]) && (after[k].revokedAt.Some? <==> Revoked(log + [step], after[k].id))
    {
      MarkedKeeps(leases, after, at, log, step, k);
    }
    KeptAfter(leases, after, log, step);
    RevokesOnlyKeptAfter(leases, after, log, step);
  }

  /** The new leases begin with the old ones, up to revocation marks. */
  predicate Extends(leases: seq<Lease>, after: seq<Lease>) {
    |leases| <= |after| && forall k :: 0 <= k < |leases| ==>
        leases[k].(revokedAt := None) == after[k].(revokedAt := None)
  }

  lemma KeptAfter(leases: seq<Lease>, after: seq<Lease>, log: seq<Step>, step: Step)
    requires Kept(leases, log) && Extends(leases, after)
    requires step.outcome.GotLease? ==>
               && Holds(after, step.outcome.lease)
               && FreshId(step.event.op) == Some(step.outcome.lease.id)
    ensures Kept(after, log + [step])
  {
    forall i | 0 <= i < |log| && log[i].outcome.GotLease? ensures Holds(after, log[i].outcome.lease) {
      var k :| 0 <= k < |leases| && leases[k].(revokedAt := None) == log[i].outcome.lease;
      assert after[k].(revokedAt := None) == log[i].outcome.lease;
    }
  }

  lemma RevokesOnlyKeptAfter(leases: seq<Lease>, after: seq<Lease>, log: seq<Step>, step: Step)
    requires RevokesOnlyKept(leases, log) && Extends(leases, after)
    requires step.event.op.Revoke? && step.outcome == Done ==> HasId(leases, step.event.op.id)
    ensures RevokesOnlyKept(after, log + [step])
  {
    forall id | Revoked(log + [step], id) ensures HasId(after, id) {
      LogGrows(log, step, id);
      var k :| 0 <= k < |leases| && leases[k].id == id;
      assert leases[k].(revokedAt := None).id == after[k].(revokedAt := None).id;
      assert after[k].id == id;
    }
  }

  lemma MarkedKeeps(leases: seq<Lease>, after: seq<Lease>, at: nat, log: seq<Step>, step: Step, k: nat)
    requires LeasesMatch(leases, log) && RevokedOne(leases, after, at) && k < |leases|
    requires step.event.op.Revoke? && step.outcome == Done && leases[at].id == step.event.op.id
    ensures Issued(log + [step], after[k])
    ensures after[k].revokedAt.Some? <==> Revoked(log + [step], after[k].id)
  {
    var i :| 0 <= i < |log| && Issues(log[i], leases[k]);
    assert after[k].(revokedAt := None) == leases[k].(revokedAt := None);
    assert Issues(log[i], after[k]);
    IssuedStays(log, step, after[k]);
    LogGrows(log, step, after[k].id);
  }

  lemma {:induction false} LeasesMatchTheLog(root: string, events: seq<Event>)
    requires FreshIds(events)
    ensures LeasesMatch(After(root, events).leases, Log(root, events))
  {
    if events == [] {
    } else {
      LastStep(root, events);
      var before := events[..|events| - 1];
      LeasesMatchTheLog(root, before);
      hide LeasesMatch, Next, FreshIds, Unused;
      LeasesStayMatched(After(root, before), Log(root, before), root, events[|events| - 1]);
    }
  }

  /** The steps that let a session run a command: it was issued a lease that is unexpired and was never revoked. */
  ghost predicate Permits(log: seq<Step>, i: int, session: string, environment: string, command: string, now: int)
  {
    && 0 <= i < |log| && log[i].outcome.GotLease?
    && var lease := log[i].outcome.lease;
       lease.session == session && lease.environment == environment && command in lease.commands
       && now < lease.expiresAt && !Revoked(log, lease.id)
  }

  /** Authorization over a whole run: a session may run a command exactly when some step still permits it. */
  lemma AuthorizedMeansPermitted(root: string, events: seq<Event>, session: string, environment: string,
      command: string, now: int)
    requires FreshIds(events)
    ensures Authorized(After(root, events), session, environment, command, now)
       <==> exists i :: Permits(Log(root, events), i, session, environment, command, now)
  {
    hide Next, After, Log, FreshIds;
    var st, log := After(root, events), Log(root, events);
    LeasesMatchTheLog(root, events);
    if Authorized(st, session, environment, command, now) {
      var k :| 0 <= k < |st.leases| && Authorizes(st.leases[k], session, environment, command, now);
      var i :| 0 <= i < |log| && Issues(log[i], st.leases[k]);
      assert Permits(log, i, session, environment, command, now);
    }
    if i :| Permits(log, i, session, environment, command, now) {
      assert Holds(st.leases, log[i].outcome.lease);
      var k :| 0 <= k < |st.leases| && st.leases[k].(revokedAt := None) == log[i].outcome.lease;
      assert Authorizes(st.leases[k], session, environment, command, now);
    }
  }
}
