/**
 Proposing, rejecting and approving commands (cmd/ironrun/review.go:97-185, internal/pending/pending.go:128-184)
 as steps of any number of processes. Between two steps of one process every other process may act.
 */
module Approval {
  import opened KeyedLists
  import opened Options
  import opened PendingStore

  /** A command of the policy file; a field the approval never sets keeps its default. */
  datatype Command = Command(
    id: string, argv: seq<string>, ttl: string, env: map<string, string>, secrets: set<string>, allowNetwork: bool)

  datatype Policy = Policy(usesEntries: bool, commands: seq<Command>)

  /** What the protocol takes as given: the review digest, and the checks on a single command line. */
  datatype Config = Config(
    digest: Proposal -> string, isShell: seq<string> -> bool, acceptable: Command -> bool, base: Policy)

  datatype Job =
    | Propose(p: Proposal)
    | Reject(id: string)
    | Approve(shown: Proposal, digest: string)

  datatype Phase =
    | Idle
    | Found(p: Proposal)
    | Prompted(p: Proposal)
    | Waiting(job: Job)
    | Locked(job: Job)
    | Loaded(job: Job, read: seq<Proposal>)
    | PolicyRead(job: Job, read: seq<Proposal>, found: Proposal, before: Policy)
    | PolicyWritten(job: Job, read: seq<Proposal>, before: Policy)
    | Ready(job: Job, after: seq<Proposal>)
    | Releasing
    | Crashed

  /**
   confirmed: the proposals a human saw and agreed to; torn: a process died between writing and checking the
   policy.
   */
  datatype State = State(
    store: seq<Proposal>, lock: Option<nat>, policy: Policy, procs: seq<Phase>,
    confirmed: set<Proposal>, torn: bool)

  datatype Action =
    | StartPropose(p: Proposal)
    | StartReject(id: string)
    | Review(id: string, expected: Option<string>)
    | LookUpPolicy
    | Answer(yes: bool)
    | TakeLock
    | GiveUp
    | LoadStore
    | RunJob
    | WritePolicy(inserts: bool)
    | CheckPolicy
    | Save
    | Unlock
    | Crash
    | RecoverLock
    | Restart

  // ----- The policy -----

  predicate HasCommand(policy: Policy, id: string) {
    exists k :: 0 <= k < |policy.commands| && policy.commands[k].id == id
  }

  predicate UniqueIds(commands: seq<Command>) {
    forall j, k :: 0 <= j < k < |commands| ==> commands[j].id != commands[k].id
  }

  /** The policy file parses. */
  predicate Loads(cfg: Config, policy: Policy) {
    && policy.commands != [] && UniqueIds(policy.commands)
    && forall k :: 0 <= k < |policy.commands| ==>
         policy.commands[k].id != "" && policy.commands[k].argv != [] && cfg.acceptable(policy.commands[k])
  }

  /** The command that a proposal becomes. */
  function CommandFor(usesEntries: bool, p: Proposal): Command {
    Command(p.id, p.argv, "120s", if usesEntries then map[] else p.env, if usesEntries then p.env.Keys else {}, false)
  }

  function With(policy: Policy, p: Proposal): Policy {
    policy.(commands := policy.commands + [CommandFor(policy.usesEntries, p)])
  }

  // ----- Steps -----

  function At(s: State, pid: nat, phase: Phase): State
    requires pid < |s.procs|
  {
    s.(procs := s.procs[pid := phase])
  }

  function ReviewStep(cfg: Config, s: State, id: string, expected: Option<string>): Phase {
    match Pending(s.store, id)
    case None => Idle
    case Some(p) =>
      if (expected.Some? && expected.value != cfg.digest(p)) || cfg.isShell(p.argv) then Idle else Found(p)
  }

  function RunJobStep(cfg: Config, s: State, job: Job, read: seq<Proposal>): Phase {
    match job
    case Propose(p) => if Created(read, p).Some? then Ready(job, Created(read, p).value) else Releasing
    case Reject(id) => if Has(read, IdOf, id) then Ready(job, Removed(read, IdOf, id)) else Releasing
    case Approve(shown, digest) =>
      var found := Pending(read, shown.id);
      if found == None || cfg.digest(found.value) != digest || !Loads(cfg, s.policy) then Releasing
      else PolicyRead(job, read, found.value, s.policy)
  }

  /** What process pid makes of the state when it takes a step; a step it cannot take changes nothing. */
  function Next(cfg: Config, s: State, pid: nat, a: Action): State {
    if pid >= |s.procs| then s
    else
      var phase := s.procs[pid];
      match a
      case StartPropose(p) => if phase.Idle? then At(s, pid, Waiting(Propose(p))) else s
      case StartReject(id) => if phase.Idle? then At(s, pid, Waiting(Reject(id))) else s
      case Review(id, expected) => if phase.Idle? then At(s, pid, ReviewStep(cfg, s, id, expected)) else s
      case LookUpPolicy =>
        if !phase.Found? then s
        else if Loads(cfg, s.policy) && !HasCommand(s.policy, phase.p.id) then At(s, pid, Prompted(phase.p))
        else At(s, pid, Idle)
      case Answer(yes) =>
        if !phase.Prompted? then s
        else if yes then
          At(s, pid, Waiting(Approve(phase.p, cfg.digest(phase.p)))).(confirmed := s.confirmed + {phase.p})
        else At(s, pid, Idle)
      case TakeLock => if phase.Waiting? && s.lock == None then At(s, pid, Locked(phase.job)).(lock := Some(pid)) else s
      case GiveUp => if phase.Waiting? then At(s, pid, Idle) else s
      case LoadStore => if phase.Locked? then At(s, pid, Loaded(phase.job, s.store)) else s
      case RunJob => if phase.Loaded? then At(s, pid, RunJobStep(cfg, s, phase.job, phase.read)) else s
      case WritePolicy(inserts) =>
        if !phase.PolicyRead? then s
        else if !inserts then At(s, pid, Releasing)
        else At(s, pid, PolicyWritten(phase.job, phase.read, phase.before)).(policy := With(phase.before, phase.found))
      case CheckPolicy =>
        if !phase.PolicyWritten? || !phase.job.Approve? then s
        else if Loads(cfg, s.policy) then At(s, pid, Ready(phase.job, Removed(phase.read, IdOf, phase.job.shown.id)))
        else At(s, pid, Releasing).(policy := phase.before)
      case Save => if phase.Ready? then At(s, pid, Releasing).(store := phase.after) else s
      case Unlock => if phase.Releasing? then At(s, pid, Idle).(lock := None) else s
      case Crash => At(s, pid, Crashed).(torn := s.torn || phase.PolicyWritten?)
      case RecoverLock => if phase.Crashed? && s.lock == Some(pid) then s.(lock := None) else s
      case Restart => if phase.Crashed? && s.lock != Some(pid) then At(s, pid, Idle) else s
  }

  function Start(cfg: Config, processes: nat): State {
    State([], None, cfg.base, seq(processes, _ => Idle), {}, false)
  }

  /** The state after a schedule: which process takes which step. */
  function After(cfg: Config, processes: nat, schedule: seq<(nat, Action)>): State {
    if schedule == [] then Start(cfg, processes)
    else
      var (pid, a) := schedule[|schedule| - 1];
      Next(cfg, After(cfg, processes, schedule[..|schedule| - 1]), pid, a)
  }

  // ----- The invariant -----

  ghost predicate Given(cfg: Config) {
    && (forall p, q :: cfg.digest(p) == cfg.digest(q) ==> p == q)
    && Loads(cfg, cfg.base)
  }

  predicate Critical(phase: Phase) {
    phase.Locked? || phase.Loaded? || phase.PolicyRead? || phase.PolicyWritten? || phase.Ready? || phase.Releasing?
  }

  /** An approval carries a proposal that a human confirmed, and its digest. */
  predicate HonestJob(cfg: Config, s: State, job: Job) {
    job.Approve? ==> job.digest == cfg.digest(job.shown) && job.shown in s.confirmed && !cfg.isShell(job.shown.argv)
  }

  /** What a job makes of the store: the operation as if it happened at once. */
  function JobResult(job: Job, store: seq<Proposal>): Option<seq<Proposal>> {
    match job
    case Propose(p) => Created(store, p)
    case Reject(id) => if Has(store, IdOf, id) then Some(Removed(store, IdOf, id)) else None
    case Approve(shown, _) =>
      if Pending(store, shown.id) == Some(shown) then Some(Removed(store, IdOf, shown.id)) else None
  }

  predicate PhaseOk(cfg: Config, s: State, phase: Phase) {
    match phase
    case Found(p) => !cfg.isShell(p.argv)
    case Prompted(p) => !cfg.isShell(p.argv)
    case Waiting(job) => HonestJob(cfg, s, job)
    case Locked(job) => HonestJob(cfg, s, job)
    case Loaded(job, read) => HonestJob(cfg, s, job) && read == s.store
    case PolicyRead(job, read, found, before) =>
      HonestJob(cfg, s, job) && read == s.store && job.Approve? && found == job.shown
      && Pending(s.store, found.id) == Some(found) && before == s.policy && Loads(cfg, before)
    case PolicyWritten(job, read, before) =>
      HonestJob(cfg, s, job) && read == s.store && job.Approve? && Pending(s.store, job.shown.id) == Some(job.shown)
      && Loads(cfg, before) && cfg.base.commands <= before.commands && s.policy == With(before, job.shown)
    case Ready(job, after) =>
      HonestJob(cfg, s, job) && JobResult(job, s.store) == Some(after)
      && (job.Approve? ==> CommandFor(s.policy.usesEntries, job.shown) in s.policy.commands && Loads(cfg, s.policy))
    case _ => true
  }

  /** Every command beyond the base policy is what a confirmed proposal becomes. */
  predicate Approved(cfg: Config, s: State) {
    && s.policy.usesEntries == cfg.base.usesEntries && cfg.base.commands <= s.policy.commands
    && forall k :: |cfg.base.commands| <= k < |s.policy.commands| ==>
        FromConfirmed(cfg, s.confirmed, s.policy.commands[k])
  }

  predicate FromConfirmed(cfg: Config, confirmed: set<Proposal>, c: Command) {
    exists p :: p in confirmed && !cfg.isShell(p.argv) && c == CommandFor(cfg.base.usesEntries, p)
  }

  /** The policy parses, but for the moment between a write and its check. */
  predicate Checked(cfg: Config, s: State) {
    Loads(cfg, s.policy) || s.torn || (s.lock.Some? && s.lock.value < |s.procs| && s.procs[s.lock.value].PolicyWritten?)
  }

  ghost predicate Inv(cfg: Config, s: State) {
    && Ordered(s.store)
    && (forall k :: 0 <= k < |s.procs| && Critical(s.procs[k]) ==> s.lock == Some(k))
    && (forall k :: 0 <= k < |s.procs| ==> PhaseOk(cfg, s, s.procs[k]))
    && Approved(cfg, s) && Checked(cfg, s)
  }
}
