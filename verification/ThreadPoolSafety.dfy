/** What every interleaving of the thread pool keeps: mutual exclusion, conservation of jobs and no lost wakeup. */
module ThreadPoolSafety {
  import opened Wrappers
  import opened ThreadPools

  // -------------------------------------------------- the invariant, one part at a time

  predicate ByWorker(a: Action) {
    a.WorkerLock? || a.WorkerTest? || a.SpuriousWake? || a.WorkerDecide? || a.WorkerFinish?
  }

  lemma MutualExclusionOfWorkers(s: Pool, a: Action)
    requires MutualExclusion(s) && Enabled(s, a) && ByWorker(a)
    ensures MutualExclusion(Next(s, a))
  {
  }

  predicate UsesMutex(a: Action) { a.CallerLock? || a.CallerCritical? }

  lemma MutualExclusionOfLocking(s: Pool, a: Action)
    requires MutualExclusion(s) && Enabled(s, a) && UsesMutex(a)
    ensures MutualExclusion(Next(s, a))
  {
  }

  predicate Wakes(a: Action) { a.NotifyOne? || a.NotifyAll? }

  lemma MutualExclusionOfWaking(s: Pool, a: Action)
    requires MutualExclusion(s) && Enabled(s, a) && Wakes(a)
    ensures MutualExclusion(Next(s, a))
  {
    hide NobodyAsleep;
  }

  lemma MutualExclusionElsewhere(s: Pool, a: Action)
    requires MutualExclusion(s) && Enabled(s, a) && !ByWorker(a) && !UsesMutex(a) && !Wakes(a)
    ensures MutualExclusion(Next(s, a))
  {
    hide NobodyAsleep, WorkerAt;
  }

  /** A worker that moves without taking or finishing a job. */
  lemma CarriedMove(s: Pool, w: nat, pc: Worker)
    requires w < |s.workers| && !s.workers[w].Running? && !pc.Running?
    ensures Carried(Move(s, w, pc).workers) == Carried(s.workers)
  {
    hide Carried;
    CarriedUpdate(s.workers, w, pc);
    var after := Carried(s.workers[w := pc]);
    assert after == after + multiset{} && Carried(s.workers) == Carried(s.workers) + multiset{};
  }

  lemma ConservationOfDecide(s: Pool, w: nat)
    requires Conservation(s) && Enabled(s, WorkerDecide(w)) && s.jobs != []
    ensures Conservation(Next(s, WorkerDecide(w)))
  {
    hide Carried;
    var job, t := s.jobs[0], Next(s, WorkerDecide(w));
    CarriedUpdate(s.workers, w, Running(job));
    assert Carried(t.workers) == Carried(s.workers) + multiset{job};
    assert multiset(t.taken) == multiset(s.taken) + multiset{job};
  }

  lemma ConservationOfFinish(s: Pool, w: nat, threw: bool)
    requires Conservation(s) && Enabled(s, WorkerFinish(w, threw))
    ensures Conservation(Next(s, WorkerFinish(w, threw)))
  {
    hide Carried;
    var job, t := s.workers[w].job, Next(s, WorkerFinish(w, threw));
    CarriedUpdate(s.workers, w, Locking);
    assert Carried(t.workers) + multiset{job} == Carried(s.workers);
  }

  lemma ConservationStep(s: Pool, a: Action)
    requires Conservation(s) && Enabled(s, a)
    ensures Conservation(Next(s, a))
  {
    hide NobodyAsleep, Carried;
    match a
    case WorkerLock(w) => CarriedMove(s, w, Testing);
    case WorkerTest(w) => CarriedMove(s, w, Deciding); CarriedMove(s, w, Asleep);
    case SpuriousWake(w) => CarriedMove(s, w, Locking);
    case WorkerDecide(w) => if s.jobs == [] { CarriedMove(s, w, Exited); } else { ConservationOfDecide(s, w); }
    case WorkerFinish(w, threw) => ConservationOfFinish(s, w, threw);
    case NotifyOne(_, woken) => if woken.Some? { CarriedMove(s, woken.value, Locking); }
    case NotifyAll(_) => CarriedWakeAll(s.workers);
    case _ =>
  }

  lemma NoLostWakeupOfWorkers(s: Pool, a: Action)
    requires NoLostWakeup(s) && Enabled(s, a) && ByWorker(a)
    ensures NoLostWakeup(Next(s, a))
  {
    hide Sum, NobodyAsleep;
    SumUpdate(s.workers, a.w, Next(s, a).workers[a.w], AwakeWeight);
  }

  lemma NoLostWakeupOfNotify(s: Pool, c: nat, woken: Option<nat>)
    requires NoLostWakeup(s) && Enabled(s, NotifyOne(c, woken))
    ensures NoLostWakeup(Next(s, NotifyOne(c, woken)))
  {
    hide Sum;
    SumUpdate(s.callers, c, Outside, NotifyingWeight);
    if woken.Some? {
      SumUpdate(s.workers, woken.value, Locking, AwakeWeight);
    }
  }

  lemma NoLostWakeupOfCallers(s: Pool, a: Action)
    requires NoLostWakeup(s) && Enabled(s, a) && !ByWorker(a) && !a.NotifyOne? && !a.NotifyAll?
    ensures NoLostWakeup(Next(s, a))
  {
    hide Sum, NobodyAsleep, WorkerAt, AwakeWeight;
    SumUpdate(s.callers, a.c, Next(s, a).callers[a.c], NotifyingWeight);
  }

  lemma NoLostWakeupStep(s: Pool, a: Action)
    requires NoLostWakeup(s) && Enabled(s, a)
    ensures NoLostWakeup(Next(s, a))
  {
    hide Sum, NobodyAsleep;
    if ByWorker(a) {
      NoLostWakeupOfWorkers(s, a);
    } else if a.NotifyOne? {
      NoLostWakeupOfNotify(s, a.c, a.woken);
    } else if !a.NotifyAll? {
      NoLostWakeupOfCallers(s, a);
    }
  }

  lemma DecisionsStep(s: Pool, a: Action)
    requires Inv(s) && Enabled(s, a)
    ensures Decisions(Next(s, a))
  {
    hide Conservation, NoLostWakeup, Closing, NobodyAsleep;
  }

  /** All but the step that sets `stopping` leave it alone, and who is past setting it. */
  predicate SetsStopping(s: Pool, a: Action) {
    a.CallerCritical? && IsCaller(s, a.c) && s.callers[a.c].ShutdownHolding? && !s.stopping
  }

  lemma SameClosers(s: Pool, a: Action, c: nat)
    requires Enabled(s, a) && !SetsStopping(s, a) && c < |s.callers|
    ensures Next(s, a).stopping == s.stopping && |Next(s, a).callers| == |s.callers|
    ensures Closes(Next(s, a).callers[c]) == Closes(s.callers[c])
  {
    hide NobodyAsleep, WorkerAt, WakeAll;
  }

  lemma OneCloserStep(s: Pool, a: Action)
    requires OneCloser(s) && Enabled(s, a)
    ensures OneCloser(Next(s, a))
  {
    var t := Next(s, a);
    if SetsStopping(s, a) {
      assert Closes(t.callers[a.c]);
    } else {
      assert t.stopping == s.stopping && |t.callers| == |s.callers| by { hide NobodyAsleep, WorkerAt, WakeAll; }
      forall c | 0 <= c < |s.callers| ensures Closes(t.callers[c]) == Closes(s.callers[c]) {
        SameClosers(s, a, c);
      }
      hide Next, Enabled, Closes;
      if s.stopping {
        var c :| 0 <= c < |s.callers| && Closes(s.callers[c]);
        assert Closes(t.callers[c]);
      }
    }
  }

  lemma NobodyAsleepStep(s: Pool, a: Action)
    requires Enabled(s, a) && s.stopping && NobodyAsleep(s)
    ensures NobodyAsleep(Next(s, a))
  {
  }

  lemma ExitedStep(s: Pool, a: Action, w: nat)
    requires Enabled(s, a) && w < |s.workers| && s.workers[w].Exited?
    ensures |Next(s, a).workers| == |s.workers| && Next(s, a).workers[w].Exited?
  {
    hide NobodyAsleep;
  }

  lemma JoinedStep(s: Pool, a: Action, c: nat)
    requires Inv(s) && Enabled(s, a) && c < |s.callers|
    ensures c < |Next(s, a).callers| && Joined(Next(s, a), Next(s, a).callers[c])
  {
    hide MutualExclusion, Conservation, NoLostWakeup, OneCloser, Decisions, NobodyAsleep;
    var t := Next(s, a);
    SameThreads(s, a);
    forall w | 0 <= w < |s.workers| && s.workers[w].Exited? ensures t.workers[w].Exited? {
      ExitedStep(s, a, w);
    }
  }

  lemma AwakeWhileJoining(s: Pool, a: Action, c: nat)
    requires Inv(s) && Enabled(s, a) && c < |s.callers|
    requires c < |Next(s, a).callers| && (Next(s, a).callers[c].Joining? || Next(s, a).callers[c].Closed?)
    ensures NobodyAsleep(Next(s, a))
  {
    hide MutualExclusion, Conservation, NoLostWakeup, Decisions, Joined;
    if s.callers[c].Joining? || s.callers[c].Closed? {
      assert Closes(s.callers[c]);
      NobodyAsleepStep(s, a);
    }
  }

  lemma ClosingStep(s: Pool, a: Action)
    requires Inv(s) && Enabled(s, a)
    ensures Closing(Next(s, a))
  {
    OneCloserStep(s, a);
    var t := Next(s, a);
    assert |t.callers| == |s.callers|;
    hide Next, Enabled, MutualExclusion, Conservation, NoLostWakeup, OneCloser, Joined, NobodyAsleep;
    forall c | 0 <= c < |t.callers|
      ensures Joined(t, t.callers[c]) && (t.callers[c].Joining? || t.callers[c].Closed? ==> NobodyAsleep(t))
    {
      JoinedStep(s, a, c);
      if t.callers[c].Joining? || t.callers[c].Closed? {
        AwakeWhileJoining(s, a, c);
      }
    }
  }

  lemma SameThreads(s: Pool, a: Action)
    requires Enabled(s, a)
    ensures |Next(s, a).workers| == |s.workers| && |Next(s, a).callers| == |s.callers|
  {
    hide NobodyAsleep;
  }

  lemma InvStep(s: Pool, a: Action)
    requires Inv(s) && Enabled(s, a)
    ensures Inv(Next(s, a))
  {
    hide Next, Enabled, MutualExclusion, Conservation, NoLostWakeup, Decisions, Closing;
    SameThreads(s, a);
    if ByWorker(a) {
      MutualExclusionOfWorkers(s, a);
    } else if UsesMutex(a) {
      MutualExclusionOfLocking(s, a);
    } else if Wakes(a) {
      MutualExclusionOfWaking(s, a);
    } else {
      MutualExclusionElsewhere(s, a);
    }
    ConservationStep(s, a);
    NoLostWakeupStep(s, a);
    DecisionsStep(s, a);
    ClosingStep(s, a);
  }

  lemma {:induction false} InvRun(s: Pool, actions: seq<Action>)
    requires Inv(s) && CanRun(s, actions)
    ensures Inv(Run(s, actions))
    decreases |actions|
  {
    hide Inv, Enabled, Next;
    if actions != [] {
      InvStep(s, actions[0]);
      InvRun(Next(s, actions[0]), actions[1..]);
    }
  }
}
