/** Where an added command comes from: the steps of a run that let it in (cmd/ironrun/review.go). */
module ApprovalStory {
  import opened KeyedLists
  import opened Options
  import opened PendingStore
  import opened Approval
  import opened ApprovalTheorems

  /** The schedule's first n steps lead here. */
  function AfterFirst(cfg: Config, processes: nat, schedule: seq<(nat, Action)>, n: nat): State
    requires n <= |schedule|
  {
    After(cfg, processes, schedule[..n])
  }

  lemma AtStart(cfg: Config, processes: nat, schedule: seq<(nat, Action)>)
    ensures AfterFirst(cfg, processes, schedule, 0) == Start(cfg, processes)
  {
    assert schedule[..0] == [];
  }

  lemma AfterOneMore(cfg: Config, processes: nat, schedule: seq<(nat, Action)>, n: nat)
    requires n < |schedule|
    ensures AfterFirst(cfg, processes, schedule, n + 1)
         == Next(cfg, AfterFirst(cfg, processes, schedule, n), schedule[n].0, schedule[n].1)
  {
    hide Next;
    assert schedule[..n + 1][..n] == schedule[..n];
  }

  /** Step n is the given action of process pid. */
  predicate Takes(schedule: seq<(nat, Action)>, n: nat, pid: nat, a: Action) {
    n < |schedule| && schedule[n] == (pid, a)
  }

  /** In step n process pid looks proposal p up by its identifier, and p is what the store has for it. */
  ghost predicate Reviews(cfg: Config, processes: nat, schedule: seq<(nat, Action)>, n: nat, pid: nat, p: Proposal) {
    exists expected: Option<string> ::
      && Takes(schedule, n, pid, Review(p.id, expected))
      && (expected.Some? ==> expected.value == cfg.digest(p))
      && Pending(AfterFirst(cfg, processes, schedule, n).store, p.id) == Some(p)
  }

  /** In step n the human to whom process pid shows p says yes. */
  predicate Confirms(cfg: Config, processes: nat, schedule: seq<(nat, Action)>, n: nat, pid: nat, p: Proposal) {
    && Takes(schedule, n, pid, Answer(true))
    && pid < |AfterFirst(cfg, processes, schedule, n).procs|
    && AfterFirst(cfg, processes, schedule, n).procs[pid] == Prompted(p)
  }

  /** What can bring a process to look at p, or to ask for it. */
  lemma ShownByStep(cfg: Config, s: State, pid: nat, a: Action, k: nat, p: Proposal)
    requires k < |s.procs|
    ensures var after := Next(cfg, s, pid, a);
            && |after.procs| == |s.procs|
            && (after.procs[k] == Found(p) || after.procs[k] == Prompted(p) ==>
                 || s.procs[k] == Found(p) || s.procs[k] == Prompted(p)
                 || (pid == k && a.Review? && Pending(s.store, a.id) == Some(p)
                     && (a.expected.Some? ==> a.expected.value == cfg.digest(p))))
  {
    hide Loads, HasCommand, Pending, Created, Removed, Has, CommandFor, With;
  }

  lemma PendingHasId(ps: seq<Proposal>, id: string, p: Proposal)
    requires Pending(ps, id) == Some(p)
    ensures p.id == id
  {
  }

  lemma {:induction false} ShownWasReviewed(
    cfg: Config, processes: nat, schedule: seq<(nat, Action)>, m: nat, pid: nat, p: Proposal)
    returns (n: nat)
    requires m <= |schedule|
    requires var s := AfterFirst(cfg, processes, schedule, m);
             pid < |s.procs| && (s.procs[pid] == Found(p) || s.procs[pid] == Prompted(p))
    ensures n < m && Reviews(cfg, processes, schedule, n, pid, p)
  {
    hide Next, Pending;
    AtStart(cfg, processes, schedule);
    if m > 0 {
      var k := m - 1;
      AfterOneMore(cfg, processes, schedule, k);
      ProcessesStay(cfg, processes, schedule[..k]);
      ProcessesStay(cfg, processes, schedule[..m]);
      var s := AfterFirst(cfg, processes, schedule, k);
      ShownByStep(cfg, s, schedule[k].0, schedule[k].1, pid, p);
      if s.procs[pid] == Found(p) || s.procs[pid] == Prompted(p) {
        n := ShownWasReviewed(cfg, processes, schedule, k, pid, p);
      } else {
        n := k;
        PendingHasId(s.store, schedule[k].1.id, p);
        assert Takes(schedule, k, pid, Review(p.id, schedule[k].1.expected));
      }
    }
  }

  lemma {:induction false} ProcessesStay(cfg: Config, processes: nat, schedule: seq<(nat, Action)>)
    ensures |After(cfg, processes, schedule).procs| == processes
  {
    hide Next;
    if schedule != [] {
      var (pid, a) := schedule[|schedule| - 1];
      ProcessesStay(cfg, processes, schedule[..|schedule| - 1]);
      StepKeepsProcesses(cfg, After(cfg, processes, schedule[..|schedule| - 1]), pid, a);
    }
  }

  lemma StepKeepsProcesses(cfg: Config, s: State, pid: nat, a: Action)
    ensures |Next(cfg, s, pid, a).procs| == |s.procs|
  {
    hide Loads, HasCommand, ReviewStep, RunJobStep, Removed, With;
  }

  lemma ConfirmedByStep(cfg: Config, s: State, pid: nat, a: Action, p: Proposal)
    requires p in Next(cfg, s, pid, a).confirmed
    ensures p in s.confirmed || (a == Answer(true) && pid < |s.procs| && s.procs[pid] == Prompted(p))
  {
    hide Loads, HasCommand, ReviewStep, RunJobStep, Removed, With;
  }

  /** A proposal counts as confirmed only because a human to whom it was shown said yes. */
  lemma {:induction false} ConfirmedWasAnswered(
    cfg: Config, processes: nat, schedule: seq<(nat, Action)>, m: nat, p: Proposal)
    returns (n: nat, pid: nat)
    requires m <= |schedule| && p in AfterFirst(cfg, processes, schedule, m).confirmed
    ensures n < m && Confirms(cfg, processes, schedule, n, pid, p)
  {
    hide Next;
    AtStart(cfg, processes, schedule);
    if m > 0 {
      var k := m - 1;
      AfterOneMore(cfg, processes, schedule, k);
      ConfirmedByStep(cfg, AfterFirst(cfg, processes, schedule, k), schedule[k].0, schedule[k].1, p);
      if p in AfterFirst(cfg, processes, schedule, k).confirmed {
        n, pid := ConfirmedWasAnswered(cfg, processes, schedule, k, p);
      } else {
        n, pid := k, schedule[k].0;
      }
    }
  }

  /** The step that brought a command into the policy. */
  lemma {:induction false} AddedByStep(cfg: Config, processes: nat, schedule: seq<(nat, Action)>, m: nat, c: Command)
    returns (n: nat)
    requires m <= |schedule| && c !in cfg.base.commands
    requires c in AfterFirst(cfg, processes, schedule, m).policy.commands
    ensures n < m && c !in AfterFirst(cfg, processes, schedule, n).policy.commands
    ensures c in AfterFirst(cfg, processes, schedule, n + 1).policy.commands
  {
    hide Next;
    AtStart(cfg, processes, schedule);
    if c in AfterFirst(cfg, processes, schedule, m - 1).policy.commands {
      n := AddedByStep(cfg, processes, schedule, m - 1, c);
    } else {
      n := m - 1;
    }
  }

  /** Such a step is the write of the proposal that was shown and confirmed and is still pending. */
  lemma AddedIsShown(cfg: Config, s: State, pid: nat, a: Action, c: Command) returns (p: Proposal)
    requires Given(cfg) && Inv(cfg, s)
    requires c !in s.policy.commands && c in Next(cfg, s, pid, a).policy.commands
    ensures a.WritePolicy? && p in s.confirmed && Pending(s.store, p.id) == Some(p)
    ensures AsSeen(cfg.base.usesEntries, p, c) && !cfg.isShell(c.argv)
  {
    hide Next, Given, Pending, Loads, CommandFor, Ordered, Checked, FromConfirmed;
    PolicyChanges(cfg, s, pid, a);
    RollbackAddsNothing(cfg, s, pid, a);
    p := s.procs[pid].job.shown;
    PromotedAsSeen(s.policy, p);
    assert PhaseOk(cfg, s, s.procs[pid]);
  }

  lemma RollbackAddsNothing(cfg: Config, s: State, pid: nat, a: Action)
    requires Given(cfg) && Inv(cfg, s)
    ensures a.CheckPolicy? ==> forall c :: c in Next(cfg, s, pid, a).policy.commands ==> c in s.policy.commands
  {
    hide Next, Given, Inv;
    if a.CheckPolicy? && Next(cfg, s, pid, a).policy != s.policy {
      PolicyChanges(cfg, s, pid, a);
    }
  }

  /**
   Every command beyond the original policy has its story: a process looked a pending proposal up, the
   human to whom it was shown said yes, and while the proposal was still pending unchanged it was
   written, with the argument list and the environment that were shown, without network, and no shell.
   */
  lemma CommandStory(cfg: Config, processes: nat, schedule: seq<(nat, Action)>, c: Command)
    returns (p: Proposal, pid: nat, reviewed: nat, answered: nat, written: nat)
    requires Given(cfg)
    requires c in After(cfg, processes, schedule).policy.commands && c !in cfg.base.commands
    ensures reviewed < answered < written < |schedule|
    ensures Reviews(cfg, processes, schedule, reviewed, pid, p)
    ensures Confirms(cfg, processes, schedule, answered, pid, p)
    ensures schedule[written].1.WritePolicy?
    ensures Pending(AfterFirst(cfg, processes, schedule, written).store, p.id) == Some(p)
    ensures AsSeen(cfg.base.usesEntries, p, c) && !cfg.isShell(c.argv)
  {
    hide After, Given, Inv, Next, Pending, Reviews, AsSeen;
    assert schedule[..|schedule|] == schedule;
    written := AddedByStep(cfg, processes, schedule, |schedule|, c);
    AfterOneMore(cfg, processes, schedule, written);
    AlwaysInv(cfg, processes, schedule[..written]);
    p := AddedIsShown(cfg, AfterFirst(cfg, processes, schedule, written), schedule[written].0, schedule[written].1, c);
    answered, pid := ConfirmedWasAnswered(cfg, processes, schedule, written, p);
    reviewed := ShownWasReviewed(cfg, processes, schedule, answered, pid, p);
  }

  // ----- Undisturbed proposals and rejections -----

  /** The steps of a transaction on the store, from the wait for the lock on. */
  const TRANSACTION: seq<Action> := [TakeLock, LoadStore, RunJob, Save, Unlock]

  lemma FiveSteps(cfg: Config, s: State, pid: nat)
    ensures Steps(cfg, s, pid, TRANSACTION)
         == Next(cfg, Next(cfg,
              Next(cfg, Next(cfg, Next(cfg, s, pid, TakeLock), pid, LoadStore), pid, RunJob), pid, Save), pid, Unlock)
  {
    hide Next;
    assert TRANSACTION[1..][1..][1..][1..][1..] == [];
  }

  /** When nobody interferes, the job of a waiting process is done, or refused without a trace. */
  lemma JobIsDone(cfg: Config, s: State, pid: nat, job: Job)
    requires pid < |s.procs| && s.procs[pid] == Waiting(job) && s.lock == None && !job.Approve?
    ensures Steps(cfg, s, pid, TRANSACTION)
         == At(s, pid, Idle).(store := if JobResult(job, s.store).Some? then JobResult(job, s.store).value else s.store)
  {
    hide JobResult, Next, Steps;
    FiveSteps(cfg, s, pid);
    var held, result := s.(lock := Some(pid)), JobResult(job, s.store);
    JobIsRead(cfg, s, pid, job);
    JobIsRun(cfg, At(held, pid, Loaded(job, s.store)), pid, job);
    var phase := if result.Some? then Ready(job, result.value) else Releasing;
    assert s.procs[pid := Loaded(job, s.store)][pid := phase] == s.procs[pid := phase];
    JobIsSaved(cfg, held, pid, phase);
  }

  lemma JobIsRead(cfg: Config, s: State, pid: nat, job: Job)
    requires pid < |s.procs| && s.procs[pid] == Waiting(job) && s.lock == None
    ensures Next(cfg, Next(cfg, s, pid, TakeLock), pid, LoadStore)
         == At(s.(lock := Some(pid)), pid, Loaded(job, s.store))
  {
    assert s.procs[pid := Locked(job)][pid := Loaded(job, s.store)] == s.procs[pid := Loaded(job, s.store)];
  }

  lemma JobIsRun(cfg: Config, s: State, pid: nat, job: Job)
    requires pid < |s.procs| && s.procs[pid] == Loaded(job, s.store) && !job.Approve?
    ensures var result := JobResult(job, s.store);
            Next(cfg, s, pid, RunJob) == At(s, pid, if result.Some? then Ready(job, result.value) else Releasing)
  {
    hide Created, Removed, Has;
  }

  lemma JobIsSaved(cfg: Config, s: State, pid: nat, phase: Phase)
    requires pid < |s.procs| && (phase.Ready? || phase.Releasing?)
    ensures Next(cfg, Next(cfg, At(s, pid, phase), pid, Save), pid, Unlock)
         == At(s, pid, Idle).(lock := None, store := if phase.Ready? then phase.after else s.store)
  {
    assert s.procs[pid := phase][pid := Releasing][pid := Idle] == s.procs[pid := Idle];
    assert s.procs[pid := phase][pid := Idle] == s.procs[pid := Idle];
  }

  /**
   Proposing under a free identifier makes the proposal pending; under a taken one it changes nothing.
   Everything else that is pending stays.
   */
  lemma ProposingSucceeds(cfg: Config, s: State, pid: nat, p: Proposal, id: string)
    requires pid < |s.procs| && s.procs[pid].Idle? && s.lock == None && Ordered(s.store)
    ensures var done := Steps(cfg, Next(cfg, s, pid, StartPropose(p)), pid, TRANSACTION);
            && done == s.(store := done.store)
            && (Pending(s.store, p.id).Some? ==> done.store == s.store)
            && (Pending(s.store, p.id) == None ==>
                  Pending(done.store, id) == if id == p.id then Some(p) else Pending(s.store, id))
  {
    hide Steps, TRANSACTION, Pending, Upserted, InOrder;
    JobIsDone(cfg, At(s, pid, Waiting(Propose(p))), pid, Propose(p));
    assert s.procs[pid := Waiting(Propose(p))][pid := Idle] == s.procs;
    PendingAfterUpsert(s.store, p, id);
  }

  lemma PendingAfterUpsert(ps: seq<Proposal>, p: Proposal, id: string)
    requires Ordered(ps)
    ensures Pending(Upserted(ps, IdOf, p), id) == if id == p.id then Some(p) else Pending(ps, id)
  {
    hide Find, Upserted, InOrder;
    UpsertMeans(ps, IdOf, p, id);
  }

  /** Rejecting takes the proposal out, and nothing else. */
  lemma RejectingSucceeds(cfg: Config, s: State, pid: nat, rejected: string, id: string)
    requires pid < |s.procs| && s.procs[pid].Idle? && s.lock == None && Ordered(s.store)
    ensures var done := Steps(cfg, Next(cfg, s, pid, StartReject(rejected)), pid, TRANSACTION);
            && done == s.(store := done.store)
            && Pending(done.store, id) == if id == rejected then None else Pending(s.store, id)
  {
    hide Steps, TRANSACTION, Pending, Removed, InOrder, Has;
    JobIsDone(cfg, At(s, pid, Waiting(Reject(rejected))), pid, Reject(rejected));
    assert s.procs[pid := Waiting(Reject(rejected))][pid := Idle] == s.procs;
    PendingAfterRemove(s.store, rejected, id);
  }

  lemma PendingAfterRemove(ps: seq<Proposal>, removed: string, id: string)
    requires Ordered(ps)
    ensures Pending(Removed(ps, IdOf, removed), id) == if id == removed then None else Pending(ps, id)
    ensures !Has(ps, IdOf, removed) ==> Pending(ps, removed) == None
  {
    hide Removed, InOrder;
    RemoveMeans(ps, IdOf, removed, id);
  }
}
