/** Workspace grants over a whole run: a grant's state is what the last steps about it made of it. */
module AccessGrants {
  import opened AccessSpec
  import opened KeyedLists
  import opened Options
  import opened AccessRuns

  predicate Succeeded(step: Step, id: string) {
    && step.outcome == Done
    && match step.event.op
       case Pause(other, _) => other == id
       case Extend(other, _) => other == id
       case RevokeWorkspace(other) => other == id
       case _ => false
  }

  predicate Issues(step: Step, id: string) {
    step.outcome.GotGrant? && step.outcome.grant.id == id
  }

  predicate RevokesGrant(step: Step, id: string) {
    step.event.op.RevokeWorkspace? && Succeeded(step, id)
  }

  /** The step starts the grant's time again. */
  predicate Renews(step: Step, id: string) {
    Issues(step, id) || (step.event.op.Extend? && Succeeded(step, id))
  }

  function RenewedUntil(step: Step): int {
    if step.outcome.GotGrant? then step.outcome.grant.expiresAt
    else if step.event.op.Extend? then step.event.now + step.event.op.ttl
    else 0
  }

  // ----- What a log says about a grant -----

  function RevokedIn(log: seq<Step>, id: string): bool {
    log != [] && (RevokesGrant(log[|log| - 1], id) || RevokedIn(log[..|log| - 1], id))
  }

  /** Is the last successful pause or resume of the grant a pause? */
  function PausedIn(log: seq<Step>, id: string): bool {
    if log == [] then false
    else
      var last := log[|log| - 1];
      if last.event.op.Pause? && Succeeded(last, id) then last.event.op.paused
      else PausedIn(log[..|log| - 1], id)
  }

  /** The last step that issued or extended the grant. */
  function LastRenewal(log: seq<Step>, id: string): (r: int)
    ensures -1 <= r < |log|
    ensures r >= 0 ==> Renews(log[r], id)
    ensures forall j :: r < j < |log| ==> !Renews(log[j], id)
  {
    if log == [] then -1
    else if Renews(log[|log| - 1], id) then |log| - 1
    else LastRenewal(log[..|log| - 1], id)
  }

  function ExpiryIn(log: seq<Step>, id: string): int {
    var r := LastRenewal(log, id);
    if r < 0 then 0 else RenewedUntil(log[r])
  }

  lemma OneStepMore(log: seq<Step>, step: Step, id: string)
    ensures RevokedIn(log + [step], id) <==> RevokesGrant(step, id) || RevokedIn(log, id)
    ensures PausedIn(log + [step], id) ==
              if step.event.op.Pause? && Succeeded(step, id) then step.event.op.paused else PausedIn(log, id)
    ensures ExpiryIn(log + [step], id) == if Renews(step, id) then RenewedUntil(step) else ExpiryIn(log, id)
    ensures LastRenewal(log + [step], id) == if Renews(step, id) then |log| else LastRenewal(log, id)
  {
    assert (log + [step])[..|log|] == log;
  }

  // ----- What a step does to the grants -----

  function Changed(g: Grant, e: Event): Grant {
    match e.op
    case Pause(_, paused) => g.(pausedAt := if paused then Some(e.now) else None)
    case Extend(_, ttl) => g.(expiresAt := e.now + ttl)
    case RevokeWorkspace(_) => g.(revokedAt := OrElse(g.revokedAt, e.now))
    case _ => g
  }

  function ChangedAt(grants: seq<Grant>, k: nat, e: Event): seq<Grant>
    requires k < |grants|
  {
    grants[k := Changed(grants[k], e)]
  }

  predicate TouchesGrants(op: Op) {
    op.Pause? || op.Extend? || op.RevokeWorkspace?
  }

  lemma GrantEffect(st: State, root: string, e: Event)
    ensures var r := Next(st, root, e);
            r.1.GotGrant? ==>
              && r.0.grants == st.grants + [r.1.grant]
              && r.1.grant.revokedAt == None
              && r.1.grant.pausedAt == None
              && FreshId(e.op) == Some(r.1.grant.id)
              && e.op.ApproveWorkspace?
    ensures var r := Next(st, root, e);
            !r.1.GotGrant? && !(TouchesGrants(e.op) && r.1 == Done) ==> r.0.grants == st.grants
    ensures var r := Next(st, root, e);
            TouchesGrants(e.op) && r.1 == Done ==>
              && IndexOf(st.grants, GrantId, e.op.id) < |st.grants|
              && r.0.grants == ChangedAt(st.grants, IndexOf(st.grants, GrantId, e.op.id), e)
  {
    hide CreateRequest, ResolvePlain, ResolveLease, ResolveWorkspace, Expire, IndexOf;
    match e.op
    case Create(_, freshId) => RequestEffects(st, root, freshId, e.now);
    case FulfillSecret(id, _) => RequestEffects(st, root, id, e.now);
    case Deny(id) => RequestEffects(st, root, id, e.now);
    case ApproveLease(id, ttl, freshId) => IssueEffects(st, root, id, ttl, freshId, e.now);
    case ApproveWorkspace(id, ttl, freshId) => IssueEffects(st, root, id, ttl, freshId, e.now);
    case _ =>
  }

  // ----- The invariant -----

  /** What never changes about a grant. */
  function Origin(g: Grant): Grant {
    g.(expiresAt := 0, pausedAt := None, revokedAt := None)
  }

  ghost predicate Issued(log: seq<Step>, g: Grant) {
    exists i :: 0 <= i < |log| && log[i].outcome.GotGrant? && Origin(log[i].outcome.grant) == Origin(g)
  }

  predicate AsLogged(g: Grant, log: seq<Step>) {
    && (g.revokedAt.Some? <==> RevokedIn(log, g.id)) && (g.pausedAt.Some? <==> PausedIn(log, g.id))
    && LastRenewal(log, g.id) >= 0 && g.expiresAt == ExpiryIn(log, g.id)
  }

  predicate Holds(grants: seq<Grant>, g: Grant) {
    exists k :: 0 <= k < |grants| && Origin(grants[k]) == Origin(g)
  }

  ghost predicate Backed(grants: seq<Grant>, log: seq<Step>) {
    forall k :: 0 <= k < |grants| ==> Issued(log, grants[k]) && AsLogged(grants[k], log)
  }

  ghost predicate Kept(grants: seq<Grant>, log: seq<Step>) {
    forall i :: 0 <= i < |log| && log[i].outcome.GotGrant? ==>
      Holds(grants, log[i].outcome.grant) && FreshId(log[i].event.op) == Some(log[i].outcome.grant.id)
  }

  predicate Distinct(grants: seq<Grant>) {
    forall j, k :: 0 <= j < k < |grants| ==> grants[j].id != grants[k].id
  }

  predicate HasId(grants: seq<Grant>, id: string) {
    exists k :: 0 <= k < |grants| && grants[k].id == id
  }

  /** Nothing was done to a grant that is not there. */
  ghost predicate Quiet(grants: seq<Grant>, log: seq<Step>) {
    forall id :: !HasId(grants, id) ==> !RevokedIn(log, id) && !PausedIn(log, id)
  }

  ghost predicate GrantsMatch(grants: seq<Grant>, log: seq<Step>) {
    Backed(grants, log) && Kept(grants, log) && Distinct(grants) && Quiet(grants, log)
  }

  lemma IssuedStays(log: seq<Step>, step: Step, g: Grant, after: Grant)
    requires Issued(log, g) && Origin(g) == Origin(after)
    ensures Issued(log + [step], after)
  {
    var i :| 0 <= i < |log| && log[i].outcome.GotGrant? && Origin(log[i].outcome.grant) == Origin(g);
    assert (log + [step])[i] == log[i];
  }

  predicate Continues(grants: seq<Grant>, after: seq<Grant>) {
    |grants| <= |after| && forall k :: 0 <= k < |grants| ==> Origin(grants[k]) == Origin(after[k])
  }

  lemma KeptAfter(grants: seq<Grant>, after: seq<Grant>, log: seq<Step>, step: Step)
    requires Kept(grants, log) && Continues(grants, after)
    requires step.outcome.GotGrant? ==>
               && Holds(after, step.outcome.grant)
               && FreshId(step.event.op) == Some(step.outcome.grant.id)
    ensures Kept(after, log + [step])
  {
    hide Origin;
    forall i | 0 <= i < |log| && log[i].outcome.GotGrant? ensures Holds(after, log[i].outcome.grant) {
      var k :| 0 <= k < |grants| && Origin(grants[k]) == Origin(log[i].outcome.grant);
      assert Origin(after[k]) == Origin(log[i].outcome.grant);
    }
  }

  lemma ContinuesIds(grants: seq<Grant>, after: seq<Grant>)
    requires Continues(grants, after)
    ensures forall k :: 0 <= k < |grants| ==> after[k].id == grants[k].id
    ensures forall id :: HasId(grants, id) ==> HasId(after, id)
  {
    forall k | 0 <= k < |grants| ensures after[k].id == grants[k].id {
      assert Origin(after[k]).id == Origin(grants[k]).id;
    }
    forall id | HasId(grants, id) ensures HasId(after, id) {
      var k :| 0 <= k < |grants| && grants[k].id == id;
      assert after[k].id == id;
    }
  }

  lemma QuietAfter(grants: seq<Grant>, after: seq<Grant>, log: seq<Step>, step: Step)
    requires Quiet(grants, log) && Continues(grants, after)
    requires TouchesGrants(step.event.op) && step.outcome == Done ==> HasId(grants, step.event.op.id)
    ensures Quiet(after, log + [step])
  {
    hide RevokedIn, PausedIn, LastRenewal, HasId, Continues;
    ContinuesIds(grants, after);
    forall id | !HasId(after, id) ensures !RevokedIn(log + [step], id) && !PausedIn(log + [step], id) {
      OneStepMore(log, step, id);
    }
  }

  lemma GrantsUntouched(grants: seq<Grant>, log: seq<Step>, step: Step)
    requires GrantsMatch(grants, log)
    requires !step.outcome.GotGrant? && !(TouchesGrants(step.event.op) && step.outcome == Done)
    ensures GrantsMatch(grants, log + [step])
  {
    hide Backed, Kept, Quiet, Distinct, Origin;
    BackedStays(grants, log, step);
    KeptAfter(grants, grants, log, step);
    QuietAfter(grants, grants, log, step);
  }

  lemma BackedStays(grants: seq<Grant>, log: seq<Step>, step: Step)
    requires Backed(grants, log)
    requires forall k :: 0 <= k < |grants| ==> !Renews(step, grants[k].id) && !Succeeded(step, grants[k].id)
    ensures Backed(grants, log + [step])
  {
    hide Renews, Succeeded, Issued, AsLogged;
    forall k | 0 <= k < |grants| ensures Issued(log + [step], grants[k]) && AsLogged(grants[k], log + [step]) {
      StaysLogged(grants, k, log, step);
    }
  }

  lemma GrantAdded(grants: seq<Grant>, log: seq<Step>, step: Step)
    requires GrantsMatch(grants, log) && Unused(log, step.event.op) && step.event.op.ApproveWorkspace?
    requires step.outcome.GotGrant? && step.outcome.grant.revokedAt == None && step.outcome.grant.pausedAt == None
    requires FreshId(step.event.op) == Some(step.outcome.grant.id)
    ensures GrantsMatch(grants + [step.outcome.grant], log + [step])
  {
    hide Backed, Kept, Quiet, Origin;
    var grant := step.outcome.grant;
    var after := grants + [grant];
    NewIdIsFresh(grants, log, step);
    assert forall k :: 0 <= k < |grants| ==> grants[k].id != grant.id;
    BackedStays(grants, log, step);
    NewIsLogged(grant, log, step);
    BackedWithOneMore(grants, grant, log + [step]);
    assert Origin(after[|grants|]) == Origin(grant);
    KeptAfter(grants, after, log, step);
    QuietAfter(grants, after, log, step);
  }

  lemma BackedWithOneMore(grants: seq<Grant>, grant: Grant, log: seq<Step>)
    requires Backed(grants, log) && Issued(log, grant) && AsLogged(grant, log)
    ensures Backed(grants + [grant], log)
  {
    hide Issued, AsLogged;
  }

  lemma StaysLogged(grants: seq<Grant>, k: nat, log: seq<Step>, step: Step)
    requires Backed(grants, log) && k < |grants|
    requires !Renews(step, grants[k].id) && !Succeeded(step, grants[k].id)
    ensures Issued(log + [step], grants[k]) && AsLogged(grants[k], log + [step])
  {
    hide RevokedIn, PausedIn, LastRenewal, Origin, ExpiryIn;
    IssuedStays(log, step, grants[k], grants[k]);
    OneStepMore(log, step, grants[k].id);
  }

  lemma NewIsLogged(grant: Grant, log: seq<Step>, step: Step)
    requires step.outcome == GotGrant(grant) && grant.revokedAt == None && grant.pausedAt == None
    requires !RevokedIn(log, grant.id) && !PausedIn(log, grant.id) && !TouchesGrants(step.event.op)
    ensures Issued(log + [step], grant) && AsLogged(grant, log + [step])
  {
    hide RevokedIn, PausedIn, LastRenewal, Origin;
    OneStepMore(log, step, grant.id);
    assert (log + [step])[|log|] == step;
  }

  lemma NewIdIsFresh(grants: seq<Grant>, log: seq<Step>, step: Step)
    requires GrantsMatch(grants, log) && Unused(log, step.event.op)
    requires step.outcome.GotGrant? && FreshId(step.event.op) == Some(step.outcome.grant.id)
    ensures !HasId(grants, step.outcome.grant.id)
    ensures !RevokedIn(log, step.outcome.grant.id) && !PausedIn(log, step.outcome.grant.id)
  {
    forall k | 0 <= k < |grants| ensures grants[k].id != step.outcome.grant.id {
      var i :| 0 <= i < |log| && log[i].outcome.GotGrant? && Origin(log[i].outcome.grant) == Origin(grants[k]);
      assert Origin(log[i].outcome.grant).id == Origin(grants[k]).id;
    }
  }

  lemma GrantChanged(grants: seq<Grant>, at: nat, log: seq<Step>, step: Step)
    requires GrantsMatch(grants, log) && at < |grants|
    requires TouchesGrants(step.event.op) && step.outcome == Done && grants[at].id == step.event.op.id
    ensures GrantsMatch(grants[at := Changed(grants[at], step.event)], log + [step])
  {
    hide Backed, Kept, Quiet, Distinct, Origin, Changed, AsLogged, Issued;
    var after := grants[at := Changed(grants[at], step.event)];
    assert HasId(grants, step.event.op.id);
    AtIsLogged(grants, at, log, step);
    BackedAfterChange(grants, at, log, step);
    DistinctAfterChange(grants, after);
    KeptAfter(grants, after, log, step);
    QuietAfter(grants, after, log, step);
  }

  lemma AtIsLogged(grants: seq<Grant>, at: nat, log: seq<Step>, step: Step)
    requires Backed(grants, log) && at < |grants|
    requires TouchesGrants(step.event.op) && step.outcome == Done && grants[at].id == step.event.op.id
    ensures var after := Changed(grants[at], step.event);
            Origin(after) == Origin(grants[at]) && Issued(log + [step], after) && AsLogged(after, log + [step])
  {
    hide RevokedIn, PausedIn, LastRenewal, Changed, Origin, ExpiryIn;
    ChangedIsLogged(grants[at], log, step);
  }

  lemma BackedAfterChange(grants: seq<Grant>, at: nat, log: seq<Step>, step: Step)
    requires Backed(grants, log) && Distinct(grants) && at < |grants|
    requires TouchesGrants(step.event.op) && step.outcome == Done && grants[at].id == step.event.op.id
    requires var after := Changed(grants[at], step.event); Issued(log + [step], after) && AsLogged(after, log + [step])
    ensures Backed(grants[at := Changed(grants[at], step.event)], log + [step])
  {
    hide RevokedIn, PausedIn, LastRenewal, Changed, Origin, ExpiryIn, AsLogged, Issued;
    forall k | 0 <= k < |grants| && k != at
      ensures Issued(log + [step], grants[k]) && AsLogged(grants[k], log + [step])
    {
      assert grants[k].id != grants[at].id;
      StaysLogged(grants, k, log, step);
    }
  }

  lemma DistinctAfterChange(grants: seq<Grant>, after: seq<Grant>)
    requires Distinct(grants) && |grants| == |after| && Continues(grants, after)
    ensures Distinct(after)
  {
    hide Continues;
    ContinuesIds(grants, after);
  }

  lemma ChangedIsLogged(g: Grant, log: seq<Step>, step: Step)
    requires Issued(log, g) && AsLogged(g, log)
    requires TouchesGrants(step.event.op) && step.outcome == Done && g.id == step.event.op.id
    ensures var after := Changed(g, step.event);
            Origin(after) == Origin(g) && Issued(log + [step], after) && AsLogged(after, log + [step])
  {
    hide RevokedIn, PausedIn, LastRenewal;
    IssuedStays(log, step, g, Changed(g, step.event));
    OneStepMore(log, step, g.id);
  }

  lemma GrantsStayMatched(st: State, log: seq<Step>, root: string, e: Event)
    requires GrantsMatch(st.grants, log) && Unused(log, e.op)
    ensures GrantsMatch(Next(st, root, e).0.grants, log + [Step(e, Next(st, root, e).1)])
  {
    hide Next, GrantsMatch;
    GrantEffect(st, root, e);
    var r := Next(st, root, e);
    var step := Step(e, r.1);
    if r.1.GotGrant? {
      GrantAdded(st.grants, log, step);
    } else if TouchesGrants(e.op) && r.1 == Done {
      GrantChanged(st.grants, IndexOf(st.grants, GrantId, e.op.id), log, step);
    } else {
      GrantsUntouched(st.grants, log, step);
    }
  }

  lemma {:induction false} GrantsMatchTheLog(root: string, events: seq<Event>)
    requires FreshIds(events)
    ensures GrantsMatch(After(root, events).grants, Log(root, events))
  {
    if events == [] {
    } else {
      LastStep(root, events);
      var before := events[..|events| - 1];
      GrantsMatchTheLog(root, before);
      hide GrantsMatch, Next, FreshIds, Unused;
      GrantsStayMatched(After(root, before), Log(root, before), root, events[|events| - 1]);
    }
  }

  // ----- What a run promises -----

  /**
   The steps that let a session work: it was granted the workspace, and the grant is neither revoked, paused nor
   expired.
   */
  ghost predicate Permits(log: seq<Step>, i: int, root: string, session: string, environment: string, now: int) {
    && 0 <= i < |log| && log[i].outcome.GotGrant?
    && var g := log[i].outcome.grant;
       g.session == session && g.environment == environment && g.root == root
       && !RevokedIn(log, g.id) && !PausedIn(log, g.id) && now < ExpiryIn(log, g.id)
  }

  lemma AuthorizedMeansPermitted(root: string, events: seq<Event>, session: string, environment: string, now: int)
    requires FreshIds(events)
    ensures WorkspaceAuthorized(After(root, events), root, session, environment, now)
       <==> exists i :: Permits(Log(root, events), i, root, session, environment, now)
  {
    hide Next, After, Log, FreshIds, AuthorizesWorkspace, Permits;
    var st, log := After(root, events), Log(root, events);
    GrantsMatchTheLog(root, events);
    if WorkspaceAuthorized(st, root, session, environment, now) {
      var k :| 0 <= k < |st.grants| && AuthorizesWorkspace(st.grants[k], root, session, environment, now);
      var i :| 0 <= i < |log| && log[i].outcome.GotGrant? && Origin(log[i].outcome.grant) == Origin(st.grants[k]);
      PermitsWhenAuthorizes(st.grants[k], log, i, root, session, environment, now);
    }
    if i :| Permits(log, i, root, session, environment, now) {
      PermitsIsIssue(log, i, root, session, environment, now);
      assert Holds(st.grants, log[i].outcome.grant);
      var k :| 0 <= k < |st.grants| && Origin(st.grants[k]) == Origin(log[i].outcome.grant);
      PermitsWhenAuthorizes(st.grants[k], log, i, root, session, environment, now);
    }
  }

  lemma PermitsIsIssue(log: seq<Step>, i: int, root: string, session: string, environment: string, now: int)
    requires Permits(log, i, root, session, environment, now)
    ensures 0 <= i < |log| && log[i].outcome.GotGrant?
  {
  }

  lemma PermitsWhenAuthorizes(g: Grant, log: seq<Step>, i: nat, root: string, session: string,
      environment: string, now: int)
    requires i < |log| && log[i].outcome.GotGrant? && Origin(log[i].outcome.grant) == Origin(g) && AsLogged(g, log)
    ensures Permits(log, i, root, session, environment, now)
        <==> AuthorizesWorkspace(g, root, session, environment, now)
  {
    hide RevokedIn, PausedIn, LastRenewal, ExpiryIn;
    SameOrigin(log[i].outcome.grant, g);
  }

  lemma SameOrigin(a: Grant, b: Grant)
    requires Origin(a) == Origin(b)
    ensures a.id == b.id && a.session == b.session && a.environment == b.environment && a.root == b.root
  {
    assert Origin(a).id == Origin(b).id && Origin(a).session == Origin(b).session;
    assert Origin(a).environment == Origin(b).environment && Origin(a).root == Origin(b).root;
  }
}
