/** What holds whatever the processes do: mutual exclusion, immutable proposals, approval of what was shown. */
module ApprovalTheorems {
  import opened Approval
  import opened KeyedLists
  import opened Options
  import opened PendingStore

  // ----- The invariant is kept -----

  /** Nobody but pid is inside a transaction. */
  predicate Alone(s: State, pid: nat) {
    forall k :: 0 <= k < |s.procs| && k != pid ==> !Critical(s.procs[k])
  }

  lemma PhaseStaysOk(cfg: Config, s: State, after: State, phase: Phase)
    requires PhaseOk(cfg, s, phase) && s.confirmed <= after.confirmed
    requires !Critical(phase) || (after.store == s.store && after.policy == s.policy)
    ensures PhaseOk(cfg, after, phase)
  {
    hide Loads, JobResult, CommandFor, With, Pending;
  }

  lemma InvKept(cfg: Config, s: State, after: State, pid: nat)
    requires Inv(cfg, s) && pid < |s.procs| && |after.procs| == |s.procs|
    requires after.procs == s.procs[pid := after.procs[pid]] && s.confirmed <= after.confirmed
    requires
      && Ordered(after.store)
      && PhaseOk(cfg, after, after.procs[pid])
      && Approved(cfg, after)
      && Checked(cfg, after)
    requires Critical(after.procs[pid]) ==> after.lock == Some(pid)
    requires Alone(s, pid) || (after.store == s.store && after.policy == s.policy && after.lock == s.lock)
    ensures Inv(cfg, after)
  {
    hide PhaseOk, Approved, Checked, Ordered;
    forall k | 0 <= k < |after.procs| ensures PhaseOk(cfg, after, after.procs[k]) {
      if k != pid {
        PhaseStaysOk(cfg, s, after, s.procs[k]);
      }
    }
  }

  lemma OwnerIsAlone(cfg: Config, s: State, pid: nat)
    requires Inv(cfg, s) && pid < |s.procs| && (Critical(s.procs[pid]) || s.lock == None || s.lock == Some(pid))
    ensures Alone(s, pid)
  {
    hide PhaseOk, Approved, Checked, Ordered;
  }

  lemma ApprovedStays(cfg: Config, s: State, after: State)
    requires Approved(cfg, s) && s.confirmed <= after.confirmed && after.policy == s.policy
    ensures Approved(cfg, after)
  {
    forall k | |cfg.base.commands| <= k < |s.policy.commands|
      ensures FromConfirmed(cfg, after.confirmed, s.policy.commands[k])
    {
      assert FromConfirmed(cfg, s.confirmed, s.policy.commands[k]);
      var p :| p in s.confirmed && !cfg.isShell(p.argv) && s.policy.commands[k] == CommandFor(cfg.base.usesEntries, p);
      assert p in after.confirmed;
    }
  }

  /** Steps outside a transaction. */
  lemma OutsideKeeps(cfg: Config, s: State, pid: nat, a: Action)
    requires Inv(cfg, s) && pid < |s.procs|
    requires a.StartPropose? || a.StartReject? || a.Review? || a.LookUpPolicy? || a.Answer? || a.GiveUp? || a.Restart?
    ensures Inv(cfg, Next(cfg, s, pid, a))
  {
    hide Loads, HasCommand, Pending, Ordered, Approved, FromConfirmed;
    var after := Next(cfg, s, pid, a);
    ApprovedStays(cfg, s, after);
    InvKept(cfg, s, after, pid);
  }

  /** Steps that take or free the lock, or lose a process. */
  lemma LockKeeps(cfg: Config, s: State, pid: nat, a: Action)
    requires Inv(cfg, s) && pid < |s.procs|
    requires a.TakeLock? || a.Unlock? || a.RecoverLock? || a.Crash?
    ensures Inv(cfg, Next(cfg, s, pid, a))
  {
    hide Loads, HasCommand, Pending, Ordered, Approved, FromConfirmed;
    var after := Next(cfg, s, pid, a);
    if after != s {
      if !a.Crash? {
        OwnerIsAlone(cfg, s, pid);
      }
      ApprovedStays(cfg, s, after);
      InvKept(cfg, s, after, pid);
    }
  }

  lemma LoadKeeps(cfg: Config, s: State, pid: nat)
    requires Inv(cfg, s) && pid < |s.procs|
    ensures Inv(cfg, Next(cfg, s, pid, LoadStore))
  {
    hide Loads, HasCommand, Pending, Ordered, Approved, FromConfirmed;
    var after := Next(cfg, s, pid, LoadStore);
    ApprovedStays(cfg, s, after);
    InvKept(cfg, s, after, pid);
  }

  lemma RunJobKeeps(cfg: Config, s: State, pid: nat)
    requires Given(cfg) && Inv(cfg, s) && pid < |s.procs|
    ensures Inv(cfg, Next(cfg, s, pid, RunJob))
  {
    hide Loads, HasCommand, Pending, Ordered, Approved, FromConfirmed, Created, Removed, Has;
    var after := Next(cfg, s, pid, RunJob);
    if s.procs[pid].Loaded? {
      var job := s.procs[pid].job;
      assert job.Approve? && Pending(s.store, job.shown.id).Some?
          && cfg.digest(Pending(s.store, job.shown.id).value) == job.digest
        ==> Pending(s.store, job.shown.id).value == job.shown;
      ApprovedStays(cfg, s, after);
      InvKept(cfg, s, after, pid);
    }
  }

  lemma WithKeepsApproved(cfg: Config, s: State, after: State, p: Proposal)
    requires Approved(cfg, s) && after.confirmed == s.confirmed && after.policy == With(s.policy, p)
    requires p in s.confirmed && !cfg.isShell(p.argv)
    ensures Approved(cfg, after)
  {
    forall k | |cfg.base.commands| <= k < |after.policy.commands|
      ensures FromConfirmed(cfg, after.confirmed, after.policy.commands[k])
    {
      if k < |s.policy.commands| {
        assert after.policy.commands[k] == s.policy.commands[k];
      }
    }
  }

  lemma BaseStays(cfg: Config, s: State)
    requires Approved(cfg, s)
    ensures cfg.base.commands <= s.policy.commands
  {
  }

  lemma WriteKeeps(cfg: Config, s: State, pid: nat, inserts: bool)
    requires Inv(cfg, s) && pid < |s.procs|
    ensures Inv(cfg, Next(cfg, s, pid, WritePolicy(inserts)))
  {
    hide Loads, HasCommand, Pending, Ordered, FromConfirmed, Created, Removed, Has, CommandFor, Approved;
    var after := Next(cfg, s, pid, WritePolicy(inserts));
    if s.procs[pid].PolicyRead? {
      OwnerIsAlone(cfg, s, pid);
      BaseStays(cfg, s);
      if inserts {
        WithKeepsApproved(cfg, s, after, s.procs[pid].found);
      } else {
        ApprovedStays(cfg, s, after);
      }
      InvKept(cfg, s, after, pid);
    }
  }

  lemma RollbackKeepsApproved(cfg: Config, s: State, after: State, p: Proposal)
    requires Approved(cfg, s) && after.confirmed == s.confirmed && s.policy == With(after.policy, p)
    requires cfg.base.commands <= after.policy.commands
    ensures Approved(cfg, after)
  {
    assert forall k :: 0 <= k < |after.policy.commands| ==> after.policy.commands[k] == s.policy.commands[k];
  }

  lemma CheckKeeps(cfg: Config, s: State, pid: nat)
    requires Inv(cfg, s) && pid < |s.procs|
    ensures Inv(cfg, Next(cfg, s, pid, CheckPolicy))
  {
    hide Loads, HasCommand, Ordered, FromConfirmed, Created, Removed, Approved;
    var after := Next(cfg, s, pid, CheckPolicy);
    if s.procs[pid].PolicyWritten? {
      OwnerIsAlone(cfg, s, pid);
      if Loads(cfg, s.policy) {
        ApprovedStays(cfg, s, after);
      } else {
        RollbackKeepsApproved(cfg, s, after, s.procs[pid].job.shown);
      }
      InvKept(cfg, s, after, pid);
    }
  }

  lemma JobKeepsOrder(job: Job, store: seq<Proposal>)
    requires Ordered(store) && JobResult(job, store).Some?
    ensures Ordered(JobResult(job, store).value)
  {
    hide InOrder, Find, Upserted, Removed;
    match job
    case Propose(p) => UpsertMeans(store, IdOf, p, p.id);
    case Reject(id) => RemoveMeans(store, IdOf, id, id);
    case Approve(shown, _) => RemoveMeans(store, IdOf, shown.id, shown.id);
  }

  lemma SaveKeeps(cfg: Config, s: State, pid: nat)
    requires Inv(cfg, s) && pid < |s.procs|
    ensures Inv(cfg, Next(cfg, s, pid, Save))
  {
    hide Loads, HasCommand, Ordered, Created, Removed, Approved, JobResult;
    var after := Next(cfg, s, pid, Save);
    if s.procs[pid].Ready? {
      OwnerIsAlone(cfg, s, pid);
      JobKeepsOrder(s.procs[pid].job, s.store);
      ApprovedStays(cfg, s, after);
      InvKept(cfg, s, after, pid);
    }
  }

  lemma StepKeeps(cfg: Config, s: State, pid: nat, a: Action)
    requires Given(cfg) && Inv(cfg, s)
    ensures Inv(cfg, Next(cfg, s, pid, a))
  {
    if pid < |s.procs| {
      hide Next, Inv, Given;
      match a
      case LoadStore => LoadKeeps(cfg, s, pid);
      case RunJob => RunJobKeeps(cfg, s, pid);
      case WritePolicy(inserts) => WriteKeeps(cfg, s, pid, inserts);
      case CheckPolicy => CheckKeeps(cfg, s, pid);
      case Save => SaveKeeps(cfg, s, pid);
      case TakeLock => LockKeeps(cfg, s, pid, a);
      case Unlock => LockKeeps(cfg, s, pid, a);
      case Crash => LockKeeps(cfg, s, pid, a);
      case RecoverLock => LockKeeps(cfg, s, pid, a);
      case _ => OutsideKeeps(cfg, s, pid, a);
    }
  }

  lemma StartInv(cfg: Config, processes: nat)
    requires Given(cfg)
    ensures Inv(cfg, Start(cfg, processes))
  {
    hide Loads;
  }

  /** Every state that any schedule of any number of processes leads to. */
  lemma {:induction false} AlwaysInv(cfg: Config, processes: nat, schedule: seq<(nat, Action)>)
    requires Given(cfg)
    ensures Inv(cfg, After(cfg, processes, schedule))
  {
    hide Next, Inv, Given;
    if schedule == [] {
      StartInv(cfg, processes);
    } else {
      var before := schedule[..|schedule| - 1];
      AlwaysInv(cfg, processes, before);
      StepKeeps(cfg, After(cfg, processes, before), schedule[|schedule| - 1].0, schedule[|schedule| - 1].1);
    }
  }

  // ----- What a run promises -----

  /** At most one process is inside a transaction, and it owns the lock. */
  lemma MutualExclusion(cfg: Config, processes: nat, schedule: seq<(nat, Action)>, j: nat, k: nat)
    requires Given(cfg)
    requires var s := After(cfg, processes, schedule);
             j < |s.procs| && k < |s.procs| && Critical(s.procs[j]) && Critical(s.procs[k])
    ensures j == k && After(cfg, processes, schedule).lock == Some(j)
  {
    hide After, Given, PhaseOk, Approved, Checked, Ordered;
    AlwaysInv(cfg, processes, schedule);
  }

  /**
   The command is what a human was shown: the same identifier and argument list, two minutes to run, no network,
   and of the environment its names as secrets, or all of it, as the policy keeps such things.
   */
  predicate AsSeen(usesEntries: bool, p: Proposal, c: Command) {
    && c.id == p.id && c.argv == p.argv && c.ttl == "120s" && !c.allowNetwork
    && if usesEntries then c.env == map[] && c.secrets == p.env.Keys else c.env == p.env && c.secrets == {}
  }

  /** Approving adds one command at the end of the policy, as it was seen. */
  lemma PromotedAsSeen(policy: Policy, p: Proposal)
    ensures With(policy, p).usesEntries == policy.usesEntries
    ensures exists c :: With(policy, p).commands == policy.commands + [c] && AsSeen(policy.usesEntries, p, c)
  {
    assert With(policy, p).commands == policy.commands + [CommandFor(policy.usesEntries, p)];
  }

  /** Every command that was not there from the start is as a human saw and confirmed it, and never a shell. */
  lemma OnlyApprovedCommands(cfg: Config, processes: nat, schedule: seq<(nat, Action)>, k: nat)
    requires Given(cfg)
    requires |cfg.base.commands| <= k < |After(cfg, processes, schedule).policy.commands|
    ensures var s := After(cfg, processes, schedule);
            exists p :: p in s.confirmed && AsSeen(cfg.base.usesEntries, p, s.policy.commands[k])
              && !cfg.isShell(s.policy.commands[k].argv)
  {
    hide After, Given, PhaseOk, Checked, Ordered;
    AlwaysInv(cfg, processes, schedule);
    var s := After(cfg, processes, schedule);
    assert FromConfirmed(cfg, s.confirmed, s.policy.commands[k]);
    var p :| p in s.confirmed && !cfg.isShell(p.argv) && s.policy.commands[k] == CommandFor(cfg.base.usesEntries, p);
    assert AsSeen(cfg.base.usesEntries, p, s.policy.commands[k]);
  }

  /** Command identifiers stay unique; the policy always parses but for the window between a write and its check. */
  lemma PolicyStaysValid(cfg: Config, processes: nat, schedule: seq<(nat, Action)>)
    requires Given(cfg) && !After(cfg, processes, schedule).torn
    requires forall k :: 0 <= k < |After(cfg, processes, schedule).procs| ==>
        !After(cfg, processes, schedule).procs[k].PolicyWritten?
    ensures
      && Loads(cfg, After(cfg, processes, schedule).policy)
      && UniqueIds(After(cfg, processes, schedule).policy.commands)
  {
    hide After, Given, PhaseOk, Approved, Ordered, UniqueIds;
    AlwaysInv(cfg, processes, schedule);
  }

  /** The policy after is the policy before with the proposal that was shown, confirmed and is pending. */
  predicate AddsShown(s: State, job: Job, after: Policy) {
    && job.Approve? && job.shown in s.confirmed && Pending(s.store, job.shown.id) == Some(job.shown)
    && after == With(s.policy, job.shown)
  }

  /**
   A step changes the policy in one way only: the lock owner adds the proposal its human saw, while it is pending,
   or takes that back.
   */
  lemma PolicyChanges(cfg: Config, s: State, pid: nat, a: Action)
    requires Given(cfg) && Inv(cfg, s) && Next(cfg, s, pid, a).policy != s.policy
    ensures pid < |s.procs| && s.lock == Some(pid)
    ensures a.WritePolicy? || a.CheckPolicy?
    ensures a.WritePolicy? ==> s.procs[pid].PolicyRead? && AddsShown(s, s.procs[pid].job, Next(cfg, s, pid, a).policy)
    ensures a.CheckPolicy? ==>
              && s.procs[pid].PolicyWritten?
              && s.procs[pid].job.Approve?
              && !Loads(cfg, s.policy)
              && s.policy == With(Next(cfg, s, pid, a).policy, s.procs[pid].job.shown)
  {
    hide Loads, HasCommand, Pending, Ordered, Approved, FromConfirmed, Created, Removed, Has, CommandFor, With;
  }

  /**
   The store behaves as if transactions happened at once: a step leaves it alone, or is the save of a job
   whose result on the current store it is. A proposal goes away by approval only when its command is in
   the policy, and that policy parses.
   */
  lemma StoreRefinesAtomic(cfg: Config, s: State, pid: nat, a: Action)
    requires Given(cfg) && Inv(cfg, s) && Next(cfg, s, pid, a).store != s.store
    ensures a.Save? && pid < |s.procs| && s.procs[pid].Ready? && s.lock == Some(pid)
    ensures JobResult(s.procs[pid].job, s.store) == Some(Next(cfg, s, pid, a).store)
    ensures var job := s.procs[pid].job;
            job.Approve? ==>
              && job.shown in s.confirmed
              && (exists c :: c in s.policy.commands && AsSeen(cfg.base.usesEntries, job.shown, c))
              && Loads(cfg, s.policy)
  {
    hide Loads, HasCommand, Pending, Ordered, Approved, FromConfirmed, Created, Removed, Has, CommandFor, With,
        JobResult, AsSeen;
    InPolicyAsSeen(cfg, s);
  }

  lemma InPolicyAsSeen(cfg: Config, s: State)
    requires Inv(cfg, s)
    ensures forall p :: CommandFor(s.policy.usesEntries, p) in s.policy.commands ==>
              exists c :: c in s.policy.commands && AsSeen(cfg.base.usesEntries, p, c)
  {
    hide PhaseOk, Checked, Ordered, FromConfirmed;
    forall p | CommandFor(s.policy.usesEntries, p) in s.policy.commands
      ensures exists c :: c in s.policy.commands && AsSeen(cfg.base.usesEntries, p, c)
    {
      assert AsSeen(cfg.base.usesEntries, p, CommandFor(s.policy.usesEntries, p));
    }
  }

  /** While an identifier stays pending, one step cannot change what it stands for. */
  lemma StepKeepsContent(cfg: Config, s: State, pid: nat, a: Action, id: string)
    requires Given(cfg) && Inv(cfg, s)
    requires Pending(s.store, id).Some? && Pending(Next(cfg, s, pid, a).store, id).Some?
    ensures Pending(Next(cfg, s, pid, a).store, id) == Pending(s.store, id)
  {
    hide Next, Inv, Given, Find, Upserted, Removed, Loads, CommandFor, InOrder;
    if Next(cfg, s, pid, a).store != s.store {
      StoreRefinesAtomic(cfg, s, pid, a);
      StoreInOrder(cfg, s);
      match s.procs[pid].job
      case Propose(p) => UpsertMeans(s.store, IdOf, p, id);
      case Reject(removed) => RemoveMeans(s.store, IdOf, removed, id);
      case Approve(shown, _) => RemoveMeans(s.store, IdOf, shown.id, id);
    }
  }

  lemma StoreInOrder(cfg: Config, s: State)
    requires Inv(cfg, s)
    ensures Ordered(s.store)
  {
  }

  /** Content is immutable for as long as the identifier is pending, over any stretch of any schedule. */
  lemma {:induction false} PendingIsImmutable(cfg: Config, processes: nat, schedule: seq<(nat, Action)>, n: nat,
      id: string)
    requires Given(cfg) && n <= |schedule|
    requires forall m :: n <= m <= |schedule| ==> Pending(After(cfg, processes, schedule[..m]).store, id).Some?
    ensures Pending(After(cfg, processes, schedule).store, id) ==
        Pending(After(cfg, processes, schedule[..n]).store, id)
  {
    hide Next, Inv, Given, Pending;
    assert schedule[..|schedule|] == schedule;
    if n < |schedule| {
      var before := schedule[..|schedule| - 1];
      assert forall m :: n <= m <= |before| ==> before[..m] == schedule[..m];
      PendingIsImmutable(cfg, processes, before, n, id);
      AlwaysInv(cfg, processes, before);
      var (pid, a) := schedule[|schedule| - 1];
      StepKeepsContent(cfg, After(cfg, processes, before), pid, a, id);
    }
  }

  // ----- An undisturbed approval succeeds -----

  /** The steps of one approval, as its process takes them. */
  const APPROVAL: seq<Action> :=
    [LookUpPolicy, Answer(true), TakeLock, LoadStore, RunJob, WritePolicy(true), CheckPolicy, Save, Unlock]

  function Steps(cfg: Config, s: State, pid: nat, actions: seq<Action>): State
    decreases |actions|
  {
    if actions == [] then s else Steps(cfg, Next(cfg, s, pid, actions[0]), pid, actions[1..])
  }

  /** May the proposal become a command of the policy? */
  predicate Promotable(cfg: Config, policy: Policy, p: Proposal) {
    && Loads(cfg, policy) && !HasCommand(policy, p.id) && !cfg.isShell(p.argv)
    && p.id != "" && p.argv != [] && cfg.acceptable(CommandFor(policy.usesEntries, p))
  }

  lemma PromotedLoads(cfg: Config, policy: Policy, p: Proposal)
    requires Promotable(cfg, policy, p)
    ensures Loads(cfg, With(policy, p))
  {
    assert forall k :: 0 <= k < |policy.commands| ==> policy.commands[k].id != p.id;
  }

  /**
   When nobody interferes, approving a promotable proposal adds its command, removes it from the store and frees
   the lock.
   */
  lemma ApprovalSucceeds(cfg: Config, s: State, pid: nat, id: string, p: Proposal)
    requires pid < |s.procs| && s.procs[pid].Idle? && s.lock == None
    requires Pending(s.store, id) == Some(p) && Promotable(cfg, s.policy, p)
    ensures var done := Steps(cfg, s, pid, [Review(id, None)] + APPROVAL);
            done == s.(store := Removed(s.store, IdOf, id), policy := With(s.policy, p), confirmed := s.confirmed + {p})
  {
    hide Removed, With, Next, Steps, APPROVAL;
    var job := Approve(p, cfg.digest(p));
    var agreed := s.(confirmed := s.confirmed + {p});
    ReviewSucceeds(cfg, s, pid, id, p);
    WriteSucceeds(cfg, agreed, pid, p, job);
    FinishSucceeds(cfg, agreed.(lock := Some(pid), policy := With(s.policy, p)), pid, p, job, s.store, s.policy);
    assert s.procs[pid := Idle] == s.procs;
    TenSteps(cfg, s, pid, Review(id, None));
  }

  lemma ReviewSucceeds(cfg: Config, s: State, pid: nat, id: string, p: Proposal)
    requires pid < |s.procs| && s.procs[pid].Idle? && Pending(s.store, id) == Some(p) && Promotable(cfg, s.policy, p)
    ensures Next(cfg, Next(cfg, Next(cfg, s, pid, Review(id, None)), pid, LookUpPolicy), pid, Answer(true))
         == At(s.(confirmed := s.confirmed + {p}), pid, Waiting(Approve(p, cfg.digest(p))))
  {
    hide Pending, Loads, HasCommand, CommandFor;
    assert Next(cfg, s, pid, Review(id, None)) == At(s, pid, Found(p));
    assert Next(cfg, At(s, pid, Found(p)), pid, LookUpPolicy) == At(s, pid, Prompted(p));
  }

  lemma WriteSucceeds(cfg: Config, s: State, pid: nat, p: Proposal, job: Job)
    requires pid < |s.procs| && s.lock == None && job == Approve(p, cfg.digest(p))
    requires Pending(s.store, p.id) == Some(p) && Promotable(cfg, s.policy, p)
    ensures Next(cfg, Next(cfg, Next(cfg, Next(cfg, At(s, pid, Waiting(job)), pid, TakeLock), pid, LoadStore), pid,
        RunJob),
              pid, WritePolicy(true))
         == At(s.(lock := Some(pid), policy := With(s.policy, p)), pid, PolicyWritten(job, s.store, s.policy))
  {
    hide Pending, Loads, HasCommand, CommandFor, With;
    var held := s.(lock := Some(pid));
    assert Next(cfg, At(s, pid, Waiting(job)), pid, TakeLock) == At(held, pid, Locked(job));
    assert Next(cfg, At(held, pid, Locked(job)), pid, LoadStore) == At(held, pid, Loaded(job, s.store));
    assert Next(cfg, At(held, pid, Loaded(job, s.store)), pid, RunJob) ==
        At(held, pid, PolicyRead(job, s.store, p, s.policy));
  }

  lemma FinishSucceeds(cfg: Config, s: State, pid: nat, p: Proposal, job: Job, store: seq<Proposal>, policy: Policy)
    requires
      && pid < |s.procs|
      && job == Approve(p, cfg.digest(p))
      && Promotable(cfg, policy, p)
      && s.policy == With(policy, p)
    ensures Next(cfg, Next(cfg, Next(cfg, At(s, pid, PolicyWritten(job, store, policy)), pid, CheckPolicy), pid,
        Save), pid, Unlock)
         == At(s.(store := Removed(store, IdOf, p.id), lock := None), pid, Idle)
  {
    hide Loads, HasCommand, CommandFor, With, Removed, Promotable;
    PromotedLoads(cfg, policy, p);
    assert Next(cfg, At(s, pid, PolicyWritten(job, store, policy)), pid, CheckPolicy) ==
        At(s, pid, Ready(job, Removed(store, IdOf, p.id)));
    assert Next(cfg, At(s, pid, Ready(job, Removed(store, IdOf, p.id))), pid, Save) ==
        At(s.(store := Removed(store, IdOf, p.id)), pid, Releasing);
  }

  lemma TenSteps(cfg: Config, s: State, pid: nat, first: Action)
    ensures Steps(cfg, s, pid, [first] + APPROVAL) ==
      Next(cfg, Next(cfg, Next(cfg, Next(cfg, Next(cfg, Next(cfg, Next(cfg, Next(cfg, Next(cfg, Next(cfg, s,
        pid, first), pid, LookUpPolicy), pid, Answer(true)), pid, TakeLock), pid, LoadStore), pid, RunJob),
        pid, WritePolicy(true)), pid, CheckPolicy), pid, Save), pid, Unlock)
  {
    hide Next;
    var actions := [first] + APPROVAL;
    assert actions[1..] == APPROVAL;
    assert APPROVAL[1..][1..][1..][1..][1..][1..][1..][1..][1..] == [];
  }
}
