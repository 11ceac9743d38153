/** What runs of the thread pool come to: every job once and in order, no sleep past shutdown, and an end. */
module ThreadPoolProgress {
  import opened Wrappers
  import opened ThreadPools
  import opened ThreadPoolSafety

  // ------------------------------------------------------------------- order

  /** How one step moves the history: taken and accepted only grow at the end, and nothing is accepted late. */
  lemma HistoryStep(s: Pool, a: Action)
    requires Enabled(s, a)
    ensures s.taken <= Next(s, a).taken && s.accepted <= Next(s, a).accepted
    ensures s.stopping ==> Next(s, a).stopping && Next(s, a).accepted == s.accepted
  {
    hide NobodyAsleep, WakeAll;
  }

  lemma {:induction false} HistoryOnlyGrows(s: Pool, actions: seq<Action>)
    requires CanRun(s, actions)
    ensures s.taken <= Run(s, actions).taken && s.accepted <= Run(s, actions).accepted
    ensures s.stopping ==> Run(s, actions).stopping && Run(s, actions).accepted == s.accepted
    decreases |actions|
  {
    hide Enabled, Next;
    if actions != [] {
      HistoryStep(s, actions[0]);
      HistoryOnlyGrows(Next(s, actions[0]), actions[1..]);
    }
  }

  /** In every reachable state the accepted jobs are those taken, in that order, followed by those queued. */
  lemma EveryJobOnceInOrder(requested: nat, callers: nat, actions: seq<Action>)
    requires CanRun(Start(requested, callers), actions)
    ensures var s := Run(Start(requested, callers), actions);
            && s.accepted == s.taken + s.jobs
            && multiset(s.taken) == s.finished + Carried(s.workers)
            && |s.workers| == WorkerCount(requested)
            && (!s.stopping ==> forall w :: 0 <= w < |s.workers| ==> !s.workers[w].Exited?)
  {
    var start := Start(requested, callers);
    InvStart(requested, callers);
    InvRun(start, actions);
    SameThreadsRun(start, actions);
    hide Start, CanRun, Run, MutualExclusion, NoLostWakeup, Closing, Carried;
  }

  lemma {:induction false} SameThreadsRun(s: Pool, actions: seq<Action>)
    requires CanRun(s, actions)
    ensures |Run(s, actions).workers| == |s.workers| && |Run(s, actions).callers| == |s.callers|
    decreases |actions|
  {
    hide Enabled, Next;
    if actions != [] {
      SameThreads(s, actions[0]);
      SameThreadsRun(Next(s, actions[0]), actions[1..]);
    }
  }

  predicate AllDone(s: Pool) {
    && s.jobs == []
    && s.taken == s.accepted
    && s.finished == multiset(s.accepted)
    && (forall w :: 0 <= w < |s.workers| ==> s.workers[w] == if s.stopping then Exited else Asleep)
  }

  /** The shutdown that set `stopping` returns only after every accepted job has finished. */
  lemma ReturnedShutdownHasDrained(s: Pool, c: nat)
    requires Inv(s) && c < |s.callers| && s.callers[c].Closed?
    ensures s.stopping && AllDone(s)
  {
    hide MutualExclusion, NoLostWakeup, Carried, NobodyAsleep;
    assert Closes(s.callers[c]) && Joined(s, s.callers[c]);
    assert s.workers[0].Exited?;
    NothingCarried(s.workers);
  }

  // ------------------------------------------------------------------ wakeups

  /**
   * In every reachable state, spurious wakeups included: while some worker sleeps, the queue is no longer than the
   * workers awake and not running a job together with the callers between unlocking and `notify_one`.
   */
  lemma NoWakeupIsLost(requested: nat, callers: nat, actions: seq<Action>)
    requires CanRun(Start(requested, callers), actions)
    ensures var s := Run(Start(requested, callers), actions);
            NobodyAsleep(s) || |s.jobs| <= Sum(s.workers, AwakeWeight) + Sum(s.callers, NotifyingWeight)
  {
    InvStart(requested, callers);
    InvRun(Start(requested, callers), actions);
    hide Start, CanRun, Run, MutualExclusion, Conservation, Closing, Decisions, Sum;
  }

  /** So where no worker is awake and idle and no notification is pending, nobody sleeps beside a queued job. */
  lemma QueueIsWatched(s: Pool)
    requires Inv(s) && s.jobs != []
    requires forall w :: 0 <= w < |s.workers| ==> AwakeWeight(s.workers[w]) == 0
    requires forall c :: 0 <= c < |s.callers| ==> !s.callers[c].Notifying?
    ensures NobodyAsleep(s)
  {
    SumZero(s.workers, AwakeWeight);
    SumZero(s.callers, NotifyingWeight);
    hide MutualExclusion, Conservation, Closing, Decisions, Sum;
  }

  lemma NoSleepAfterStopping(s: Pool, a: Action, w: nat)
    requires Enabled(s, a) && s.stopping && w < |s.workers| && !s.workers[w].Asleep?
    ensures w < |Next(s, a).workers| && !Next(s, a).workers[w].Asleep?
  {
    hide NobodyAsleep;
  }

  // --------------------------------------------------------------------- rest

  /** A step some thread takes on its own, unlike a new call or a spurious wakeup. */
  predicate Internal(a: Action) { !a.CallEnqueue? && !a.CallShutdown? && !a.SpuriousWake? }

  ghost predicate AtRest(s: Pool) { forall a :: Internal(a) ==> !Enabled(s, a) }

  predicate Returned(s: Pool) {
    forall c :: 0 <= c < |s.callers| ==> s.callers[c].Outside? || s.callers[c].Closed?
  }

  lemma NotEnabledAtRest(s: Pool, a: Action)
    requires AtRest(s) && Internal(a)
    ensures !Enabled(s, a)
  {
  }

  lemma FreeAtRest(s: Pool)
    requires Inv(s) && AtRest(s)
    ensures s.mutex.Free?
  {
    hide AtRest, Conservation, NoLostWakeup, Closing;
    if s.mutex.HeldByWorker? {
      var w := s.mutex.worker;
      NotEnabledAtRest(s, if s.workers[w].Testing? then WorkerTest(w) else WorkerDecide(w));
    } else if s.mutex.HeldByCaller? {
      NotEnabledAtRest(s, CallerCritical(s.mutex.caller));
    }
  }

  lemma HoldersAtRest(s: Pool)
    requires Inv(s) && s.mutex.Free?
    ensures forall w :: 0 <= w < |s.workers| ==> !WorkerHolds(s.workers[w])
    ensures forall c :: 0 <= c < |s.callers| ==> !CallerHolds(s.callers[c])
  {
    hide Conservation, NoLostWakeup, Closing, Decisions;
  }

  lemma WorkerAtRest(s: Pool, w: nat)
    requires Inv(s) && AtRest(s) && w < |s.workers|
    ensures s.workers[w].Asleep? || s.workers[w].Exited?
  {
    FreeAtRest(s);
    hide AtRest, Inv;
    NotEnabledAtRest(s, WorkerLock(w));
    NotEnabledAtRest(s, WorkerTest(w));
    NotEnabledAtRest(s, WorkerFinish(w, false));
    HoldersAtRest(s);
  }

  lemma ChooseSleeper(s: Pool) returns (woken: Option<nat>)
    ensures if woken.Some? then WorkerAt(s, woken.value, Asleep) else NobodyAsleep(s)
  {
    if NobodyAsleep(s) {
      woken := None;
    } else {
      var w :| 0 <= w < |s.workers| && s.workers[w].Asleep?;
      woken := Some(w);
    }
  }

  lemma CallerAtRest(s: Pool, c: nat)
    requires Inv(s) && AtRest(s) && c < |s.callers|
    ensures s.callers[c].Outside? || s.callers[c].Closed?
  {
    FreeAtRest(s);
    HoldersAtRest(s);
    hide AtRest, MutualExclusion, Conservation, NoLostWakeup, Decisions;
    NotEnabledAtRest(s, CallerLock(c));
    NotEnabledAtRest(s, NotifyAll(c));
    if s.callers[c].Notifying? {
      var woken := ChooseSleeper(s);
      NotEnabledAtRest(s, NotifyOne(c, woken));
    } else if s.callers[c].Joining? {
      if s.callers[c].next < |s.workers| {
        WorkerAtRest(s, s.callers[c].next);
      }
      NotEnabledAtRest(s, Join(c));
    }
  }

  /** The pool stands still exactly when every call has returned and every accepted job has finished. */
  lemma AtRestExactly(s: Pool)
    requires Inv(s)
    ensures AtRest(s) <==> s.mutex.Free? && Returned(s) && AllDone(s)
  {
    if AtRest(s) {
      RestMeansDone(s);
    } else {
      var a :| Internal(a) && Enabled(s, a);
      hide Conservation, NoLostWakeup, Closing, Decisions, MutualExclusion;
    }
  }

  lemma RestAfterStopping(s: Pool)
    requires Inv(s) && s.stopping && Returned(s)
    ensures AllDone(s)
  {
    CloserHasReturned(s);
    var c: nat :| c < |s.callers| && s.callers[c].Closed?;
    hide Inv, AllDone, Returned;
    ReturnedShutdownHasDrained(s, c);
  }

  lemma RestBeforeStopping(s: Pool)
    requires Inv(s) && !s.stopping && Returned(s)
    requires forall w :: 0 <= w < |s.workers| ==> s.workers[w].Asleep? || s.workers[w].Exited?
    ensures AllDone(s)
  {
    hide MutualExclusion, Closing, Carried, NobodyAsleep, NoLostWakeup;
    NothingCarried(s.workers);
    assert s.workers[0].Asleep?;
    SomebodySleeps(s, 0);
    if s.jobs != [] {
      QueueIsWatched(s);
    }
  }

  lemma SomebodySleeps(s: Pool, w: nat)
    requires w < |s.workers| && s.workers[w].Asleep?
    ensures !NobodyAsleep(s)
  {
  }

  lemma RestMeansDone(s: Pool)
    requires Inv(s) && AtRest(s)
    ensures s.mutex.Free? && Returned(s) && AllDone(s)
  {
    hide Inv, AtRest, AllDone;
    FreeAtRest(s);
    forall w | 0 <= w < |s.workers| ensures s.workers[w].Asleep? || s.workers[w].Exited? { WorkerAtRest(s, w); }
    forall c | 0 <= c < |s.callers| ensures s.callers[c].Outside? || s.callers[c].Closed? { CallerAtRest(s, c); }
    if s.stopping {
      RestAfterStopping(s);
    } else {
      RestBeforeStopping(s);
    }
  }

  // --------------------------------------------------------------- termination

  function Rank(stopping: bool): Worker -> nat {
    (worker: Worker) =>
      match worker
      case Exited => 0
      case Deciding => 1
      case Testing => 2
      case Locking => 3
      case Running(_) => 4
      case Asleep => if stopping then 4 else 0
  }

  function CallerRank(n: nat): Caller -> nat {
    (caller: Caller) =>
      match caller
      case Outside => 0
      case EnqueueLocking(_) => 10
      case EnqueueHolding(_) => 9
      case Notifying => 4
      case ShutdownLocking => 5 * n + 4
      case ShutdownHolding => 5 * n + 3
      case NotifyingAll => n + 2
      case Joining(next) => if next <= n then n + 1 - next else 1
      case Closed => 0
  }

  /** Falls with every internal step; once `stopping` is set, with every spurious wakeup too. */
  function Measure(s: Pool): nat {
    4 * |s.jobs| + Sum(s.workers, Rank(s.stopping)) + Sum(s.callers, CallerRank(|s.workers|))
  }

  function Charge(s: Pool, a: Action): nat {
    if a.SpuriousWake? then (if s.stopping then 0 else 4)
    else if a.CallEnqueue? || a.CallShutdown? then 5 * |s.workers| + 11
    else 0
  }

  lemma {:induction false} SumWakeAll(workers: seq<Worker>)
    ensures Sum(WakeAll(workers), Rank(true)) <= Sum(workers, Rank(true))
    decreases |workers|
  {
    if workers != [] {
      var n := |workers| - 1;
      SumWakeAll(workers[..n]);
      assert WakeAll(workers)[..n] == WakeAll(workers[..n]);
    }
  }

  lemma {:induction false} SumStopping(workers: seq<Worker>)
    ensures Sum(workers, Rank(true)) <= Sum(workers, Rank(false)) + 4 * |workers|
    decreases |workers|
  {
    if workers != [] {
      SumStopping(workers[..|workers| - 1]);
    }
  }

  lemma WorkerStepDecreases(s: Pool, a: Action)
    requires Enabled(s, a) && ByWorker(a)
    ensures Measure(Next(s, a)) < Measure(s) + Charge(s, a)
  {
    hide Sum;
    SumUpdate(s.workers, a.w, Next(s, a).workers[a.w], Rank(s.stopping));
  }

  lemma NotifyDecreases(s: Pool, a: Action)
    requires Inv(s) && Enabled(s, a) && (a.NotifyOne? || a.NotifyAll?)
    ensures Measure(Next(s, a)) < Measure(s)
  {
    hide Sum, MutualExclusion, Conservation, NoLostWakeup, Decisions;
    SumUpdate(s.callers, a.c, Next(s, a).callers[a.c], CallerRank(|s.workers|));
    if a.NotifyAll? {
      assert Closes(s.callers[a.c]);
      SumWakeAll(s.workers);
    } else if a.woken.Some? {
      SumUpdate(s.workers, a.woken.value, Locking, Rank(s.stopping));
    }
  }

  lemma CallerStepDecreases(s: Pool, a: Action)
    requires Enabled(s, a) && (a.CallerLock? || a.CallerCritical? || a.Join?)
    ensures Measure(Next(s, a)) < Measure(s)
  {
    hide Sum;
    SumUpdate(s.callers, a.c, Next(s, a).callers[a.c], CallerRank(|s.workers|));
    SumStopping(s.workers);
  }

  lemma CallIsCharged(s: Pool, a: Action)
    requires Enabled(s, a) && (a.CallEnqueue? || a.CallShutdown?)
    ensures Measure(Next(s, a)) < Measure(s) + Charge(s, a)
  {
    hide Sum;
    SumUpdate(s.callers, a.c, Next(s, a).callers[a.c], CallerRank(|s.workers|));
  }

  lemma StepDecreases(s: Pool, a: Action)
    requires Inv(s) && Enabled(s, a)
    ensures Measure(Next(s, a)) < Measure(s) + Charge(s, a)
  {
    hide Measure, Inv, Next, Enabled, Charge;
    if ByWorker(a) {
      WorkerStepDecreases(s, a);
    } else if a.NotifyOne? || a.NotifyAll? {
      NotifyDecreases(s, a);
    } else if a.CallEnqueue? || a.CallShutdown? {
      CallIsCharged(s, a);
    } else {
      CallerStepDecreases(s, a);
    }
  }

  predicate IsCall(a: Action) { a.CallEnqueue? || a.CallShutdown? }

  function Calls(actions: seq<Action>): nat {
    if actions == [] then 0 else (if IsCall(actions[0]) then 1 else 0) + Calls(actions[1..])
  }

  function SpuriousWakes(actions: seq<Action>): nat {
    if actions == [] then 0 else (if actions[0].SpuriousWake? then 1 else 0) + SpuriousWakes(actions[1..])
  }

  lemma OneMore(k: nat, n: nat)
    ensures k * (1 + n) == k + k * n
  {
  }

  /** A run is no longer than its start, its calls and, before `stopping`, its spurious wakeups allow. */
  lemma {:induction false} RunsAreBounded(s: Pool, actions: seq<Action>)
    requires Inv(s) && CanRun(s, actions)
    ensures |actions| + Measure(Run(s, actions))
            <= Measure(s) + (5 * |s.workers| + 11) * Calls(actions)
               + if s.stopping then 0 else 4 * SpuriousWakes(actions)
    decreases |actions|
  {
    hide Measure, Inv, Next, Enabled;
    if actions != [] {
      var a, t := actions[0], Next(s, actions[0]);
      InvStep(s, a);
      StepDecreases(s, a);
      SameThreads(s, a);
      HistoryStep(s, a);
      RunsAreBounded(t, actions[1..]);
      OneMore(5 * |s.workers| + 11, Calls(actions[1..]));
    }
  }

  /**
   * After `stopping` is set, and if nothing further is called, every run is finite, and where none of its steps can
   * follow the shutdown has returned, all workers have exited and every job accepted before has finished.
   */
  lemma ShutdownTerminates(requested: nat, callers: nat, before: seq<Action>, actions: seq<Action>)
    requires CanRun(Start(requested, callers), before) && Run(Start(requested, callers), before).stopping
    requires CanRun(Run(Start(requested, callers), before), actions) && Calls(actions) == 0
    ensures var s := Run(Start(requested, callers), before);
            var t := Run(s, actions);
            && |actions| <= Measure(s)
            && ((forall a :: Enabled(t, a) ==> IsCall(a)) ==>
                  AllDone(t) && t.accepted == s.accepted && (exists c: nat :: c < |t.callers| && t.callers[c].Closed?))
  {
    var s := Run(Start(requested, callers), before);
    var t := Run(s, actions);
    InvStart(requested, callers);
    InvRun(Start(requested, callers), before);
    InvRun(s, actions);
    RunsAreBounded(s, actions);
    HistoryOnlyGrows(s, actions);
    hide Start, Run, CanRun, Measure, Calls;
    if forall a :: Enabled(t, a) ==> IsCall(a) {
      hide Enabled, Inv;
      assert AtRest(t);
      RestMeansDone(t);
      CloserHasReturned(t);
    }
  }

  lemma CloserHasReturned(s: Pool)
    requires Inv(s) && s.stopping && Returned(s)
    ensures exists c: nat :: c < |s.callers| && s.callers[c].Closed?
  {
    hide MutualExclusion, Conservation, NoLostWakeup, Decisions, Joined, NobodyAsleep;
    var c :| 0 <= c < |s.callers| && Closes(s.callers[c]);
    assert s.callers[c].Closed?;
  }
}
