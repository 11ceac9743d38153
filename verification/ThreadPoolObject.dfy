/**
 * The code of the pool's threads: the worker's loop, `enqueue` and `shutdown`, each run by one thread while the others
 * do as they like between its steps. Whatever comes of it is a run of the machine.
 */
module ThreadPoolObjects {
  import opened Wrappers
  import opened ThreadPools
  import opened ThreadPoolSafety
  import opened ThreadPoolProgress

  datatype Thread = WorkerThread(w: nat) | CallerThread(c: nat)

  /** The step is one that this thread takes itself. */
  predicate Own(self: Thread, a: Action) {
    match a
    case WorkerLock(w) => self == WorkerThread(w)
    case WorkerTest(w) => self == WorkerThread(w)
    case WorkerDecide(w) => self == WorkerThread(w)
    case WorkerFinish(w, _) => self == WorkerThread(w)
    case SpuriousWake(_) => false
    case CallEnqueue(c, _) => self == CallerThread(c)
    case CallShutdown(c) => self == CallerThread(c)
    case CallerLock(c) => self == CallerThread(c)
    case CallerCritical(c) => self == CallerThread(c)
    case NotifyOne(c, _) => self == CallerThread(c)
    case NotifyAll(c) => self == CallerThread(c)
    case Join(c) => self == CallerThread(c)
  }

  /** The thread stands where it stood, except that it may have been woken. */
  predicate Undisturbed(self: Thread, before: Pool, after: Pool) {
    match self
    case WorkerThread(w) =>
      w < |before.workers| == |after.workers|
      && (after.workers[w] == before.workers[w] || (before.workers[w].Asleep? && after.workers[w].Locking?))
    case CallerThread(c) => c < |before.callers| == |after.callers| && after.callers[c] == before.callers[c]
  }

  predicate Exists(self: Thread, s: Pool) {
    match self
    case WorkerThread(w) => w < |s.workers|
    case CallerThread(c) => c < |s.callers|
  }

  lemma OthersDoNotDisturb(self: Thread, s: Pool, a: Action)
    requires Enabled(s, a) && !Own(self, a) && Exists(self, s)
    ensures Undisturbed(self, s, Next(s, a))
  {
    hide NobodyAsleep;
  }

  lemma UndisturbedTwice(self: Thread, a: Pool, b: Pool, c: Pool)
    requires Undisturbed(self, a, b) && Undisturbed(self, b, c)
    ensures Undisturbed(self, a, c)
  {
  }

  lemma NotDisturbed(self: Thread, s: Pool)
    requires Exists(self, s)
    ensures Undisturbed(self, s, s)
  {
  }

  lemma OthersMove(self: Thread, before: Pool, s: Pool, a: Action)
    requires Undisturbed(self, before, s) && Enabled(s, a) && !Own(self, a)
    ensures Undisturbed(self, before, Next(s, a))
    ensures s.accepted <= Next(s, a).accepted && (s.stopping ==> Next(s, a).stopping)
  {
    hide Enabled, Next, Own;
    OthersDoNotDisturb(self, s, a);
    UndisturbedTwice(self, before, s, Next(s, a));
    HistoryStep(s, a);
  }

  lemma {:induction false} OneMoreStep(s: Pool, actions: seq<Action>, a: Action)
    requires CanRun(s, actions) && Enabled(Run(s, actions), a)
    ensures CanRun(s, actions + [a]) && Run(s, actions + [a]) == Next(Run(s, actions), a)
    decreases |actions|
  {
    hide Enabled, Next;
    if actions == [] {
      assert (actions + [a])[0] == a && (actions + [a])[1..] == [];
    } else {
      OneMoreStep(Next(s, actions[0]), actions[1..], a);
      assert (actions + [a])[0] == actions[0] && (actions + [a])[1..] == actions[1..] + [a];
    }
  }

  class ThreadPool {
    var workers: seq<Worker>
    var jobs: seq<Job>
    var stopping: bool
    var queueMutex: Mutex
    var callers: seq<Caller>
    var accepted: seq<Job>
    var taken: seq<Job>
    var finished: multiset<Job>
    ghost const start: Pool
    ghost var history: seq<Action>

    function State(): Pool
      reads this
    {
      Pool(workers, jobs, stopping, queueMutex, callers, accepted, taken, finished)
    }

    /** All that has happened to the pool since it was made is a run of the machine. */
    ghost predicate Valid()
      reads this
    {
      Inv(start) && CanRun(start, history) && Run(start, history) == State()
    }

    lemma Invariant()
      requires Valid()
      ensures Inv(State())
    {
      InvRun(start, history);
    }

    /** `callers` threads other than the workers may call the pool. */
    constructor (requested: nat, callers: nat)
      ensures Valid() && State() == Start(requested, callers) && history == []
    {
      var count := requested;
      if count == 0 {
        count := 2;
      }
      if count > 16 {
        count := 16;
      }
      workers, jobs, stopping, queueMutex := seq(count, _ => Locking), [], false, Free;
      this.callers := seq(callers, _ => Outside);
      accepted, taken, finished := [], [], multiset{};
      start, history := Start(requested, callers), [];
      new;
      InvStart(requested, callers);
    }

    /** The step that the last statements have taken goes on record. */
    ghost method Record(a: Action)
      requires Inv(start) && CanRun(start, history) && Enabled(Run(start, history), a)
      requires State() == Next(Run(start, history), a)
      modifies this`history
      ensures Valid() && history == old(history) + [a]
    {
      OneMoreStep(start, history, a);
      history := history + [a];
    }

    /** The other threads try some steps; one that is not possible is passed over. */
    method LetOthersRun(self: Thread, turn: seq<Action>)
      requires Valid() && Exists(self, State())
      modifies this
      ensures Valid() && Undisturbed(self, old(State()), State())
      ensures old(history) <= history && old(accepted) <= accepted && (old(stopping) ==> stopping)
    {
      hide Undisturbed, Enabled, Next, Own, Inv, Run, CanRun;
      NotDisturbed(self, State());
      for i := 0 to |turn|
        invariant Valid() && Undisturbed(self, old(State()), State())
        invariant old(history) <= history && old(accepted) <= accepted && (old(stopping) ==> stopping)
      {
        var a := turn[i];
        if Enabled(State(), a) && !Own(self, a) {
          OthersMove(self, old(State()), State(), a);
          Take(a);
        }
      }
    }

    /** A step of any thread. */
    method Take(a: Action)
      requires Valid() && Enabled(State(), a)
      modifies this
      ensures Valid() && State() == Next(old(State()), a) && history == old(history) + [a]
    {
      hide Enabled, Next, Inv, Run, CanRun;
      var t := Next(State(), a);
      workers, jobs, stopping, queueMutex, callers := t.workers, t.jobs, t.stopping, t.mutex, t.callers;
      accepted, taken, finished := t.accepted, t.taken, t.finished;
      Record(a);
    }

    /** Blocks until the mutex is free, and takes it; `rest` are the turns not used yet. */
    method LockAsWorker(w: nat, turns: seq<seq<Action>>) returns (locked: bool, rest: seq<seq<Action>>)
      requires Valid() && WorkerAt(State(), w, Locking)
      modifies this
      ensures Valid() && WorkerAt(State(), w, if locked then Testing else Locking)
      ensures old(history) <= history && |rest| <= |turns| && (locked ==> |rest| < |turns|)
    {
      hide Inv, Run, CanRun;
      rest := turns;
      locked := false;
      while rest != []
        invariant Valid() && WorkerAt(State(), w, Locking) && old(history) <= history && |rest| <= |turns|
        decreases |rest|
      {
        LetOthersRun(WorkerThread(w), rest[0]);
        rest := rest[1..];
        if queueMutex == Free {
          queueMutex, workers := HeldByWorker(w), workers[w := Testing];
          Record(WorkerLock(w));
          return true, rest;
        }
      }
    }

    /** Sleeps until woken, by a notification or for no reason. */
    method Sleep(w: nat, turns: seq<seq<Action>>) returns (woken: bool, rest: seq<seq<Action>>)
      requires Valid() && WorkerAt(State(), w, Asleep)
      modifies this
      ensures Valid() && WorkerAt(State(), w, if woken then Locking else Asleep)
      ensures old(history) <= history && |rest| <= |turns|
    {
      hide Inv, Run, CanRun;
      rest := turns;
      woken := false;
      while rest != []
        invariant Valid() && WorkerAt(State(), w, Asleep) && old(history) <= history && |rest| <= |turns|
        decreases |rest|
      {
        LetOthersRun(WorkerThread(w), rest[0]);
        rest := rest[1..];
        if workers[w].Locking? {
          return true, rest;
        }
      }
    }

    /** Unlocks and falls asleep in one step. */
    method FallAsleep(w: nat)
      requires Valid() && WorkerAt(State(), w, Testing) && !stopping && jobs == []
      modifies this`queueMutex, this`workers, this`history
      ensures Valid() && WorkerAt(State(), w, Asleep) && old(history) <= history
    {
      hide Inv, Run, CanRun;
      queueMutex, workers := Free, workers[w := Asleep];
      Record(WorkerTest(w));
    }

    /** `condition.wait` with its predicate: gives the mutex up and sleeps as long as there is nothing to do. */
    method WaitForWork(w: nat, turns: seq<seq<Action>>) returns (ready: bool, rest: seq<seq<Action>>)
      requires Valid() && WorkerAt(State(), w, Testing)
      modifies this
      ensures Valid() && old(history) <= history && |rest| <= |turns| && w < |workers|
      ensures if ready then workers[w] == Deciding && (stopping || jobs != []) else workers[w] != Exited
    {
      hide Inv, Run, CanRun;
      rest := turns;
      while !(stopping || jobs != [])
        invariant Valid() && WorkerAt(State(), w, Testing) && old(history) <= history && |rest| <= |turns|
        decreases |rest|
      {
        FallAsleep(w);
        var woken, locked;
        woken, rest := Sleep(w, rest);
        if !woken {
          return false, rest;
        }
        locked, rest := LockAsWorker(w, rest);
        if !locked {
          return false, rest;
        }
      }
      workers := workers[w := Deciding];
      Record(WorkerTest(w));
      return true, rest;
    }

    /** The rest of the critical section: leaves the loop, or takes the oldest job. */
    method TakeJob(w: nat) returns (job: Option<Job>)
      requires Valid() && WorkerAt(State(), w, Deciding) && (stopping || jobs != [])
      modifies this
      ensures Valid() && old(history) <= history
      ensures job.None? ==> WorkerAt(State(), w, Exited) && stopping && jobs == []
      ensures job.Some? ==> WorkerAt(State(), w, Running(job.value)) && old(jobs) == [job.value] + jobs
    {
      hide Inv, Run, CanRun;
      if stopping && jobs == [] {
        queueMutex, workers := Free, workers[w := Exited];
        Record(WorkerDecide(w));
        return None;
      }
      var front := jobs[0];
      jobs, taken := jobs[1..], taken + [front];
      queueMutex, workers := Free, workers[w := Running(front)];
      Record(WorkerDecide(w));
      return Some(front);
    }

    /** A job runs outside the mutex; an exception that it throws is caught and logged. */
    method RunJob(w: nat, job: Job, turn: seq<Action>, throws: bool)
      requires Valid() && WorkerAt(State(), w, Running(job))
      modifies this
      ensures Valid() && WorkerAt(State(), w, Locking) && old(history) <= history
      ensures finished[job] > 0
    {
      hide Inv, Run, CanRun;
      LetOthersRun(WorkerThread(w), turn);
      finished := finished + multiset{job};
      workers := workers[w := Locking];
      Record(WorkerFinish(w, throws));
    }

    /**
     * The loop of one worker. `turns` says what the other threads try between its steps; when it is used up, the worker
     * is inside some blocking call or a job. Its jobs return or throw as they like.
     */
    method WorkerLoop(w: nat, turns: seq<seq<Action>>, throws: nat -> bool) returns (exited: bool)
      requires Valid() && WorkerAt(State(), w, Locking)
      modifies this
      ensures Valid() && old(history) <= history && w < |workers|
      ensures if exited then workers[w] == Exited && stopping && jobs == [] else workers[w] != Exited
    {
      hide Valid;
      var rest, executed: nat := turns, 0;
      while true
        invariant Valid() && WorkerAt(State(), w, Locking) && old(history) <= history
        decreases |rest|
      {
        var locked, ready;
        locked, rest := LockAsWorker(w, rest);
        if !locked {
          return false;
        }
        ready, rest := WaitForWork(w, rest);
        if !ready {
          return false;
        }
        var job := TakeJob(w);
        if job.None? {
          return true;
        }
        if rest == [] {
          return false;
        }
        RunJob(w, job.value, rest[0], throws(executed));
        rest := rest[1..];
        executed := executed + 1;
      }
    }

    /** Blocks until the mutex is free, and takes it for `enqueue` or `shutdown`. */
    method LockAsCaller(c: nat, turns: seq<seq<Action>>) returns (locked: bool, rest: seq<seq<Action>>)
      requires Valid() && c < |callers| && (callers[c].EnqueueLocking? || callers[c].ShutdownLocking?)
      modifies this
      ensures Valid() && c < |callers| && old(history) <= history && |rest| <= |turns|
      ensures old(accepted) <= accepted && (old(stopping) ==> stopping)
      ensures locked ==> callers[c] == if old(callers[c]).EnqueueLocking? then EnqueueHolding(old(callers[c]).job)
                                       else ShutdownHolding
    {
      hide Inv, Run, CanRun;
      rest := turns;
      locked := false;
      while rest != []
        invariant Valid() && c < |callers| && callers[c] == old(callers[c])
        invariant old(history) <= history && |rest| <= |turns|
        invariant old(accepted) <= accepted && (old(stopping) ==> stopping)
        decreases |rest|
      {
        LetOthersRun(CallerThread(c), rest[0]);
        rest := rest[1..];
        if queueMutex == Free {
          queueMutex := HeldByCaller(c);
          callers := callers[c := if callers[c].EnqueueLocking? then EnqueueHolding(callers[c].job)
                                  else ShutdownHolding];
          Record(CallerLock(c));
          return true, rest;
        }
      }
    }

    /** The critical section of `enqueue`: no job is accepted once shutdown has begun. */
    method PushJob(c: nat, job: Job) returns (pushed: bool)
      requires Valid() && c < |callers| && callers[c] == EnqueueHolding(job)
      modifies this
      ensures Valid() && c < |callers| && old(history) <= history
      ensures pushed <==> !stopping
      ensures callers[c] == if pushed then Notifying else Outside
      ensures accepted == if pushed then old(accepted) + [job] else old(accepted)
    {
      hide Inv, Run, CanRun;
      queueMutex := Free;
      if stopping {
        callers := callers[c := Outside];
        Record(CallerCritical(c));
        return false;
      }
      jobs, accepted := jobs + [job], accepted + [job];
      callers := callers[c := Notifying];
      Record(CallerCritical(c));
      return true;
    }

    /**
     * A call of `enqueue`; an empty function is dropped at once. Unless the call blocks, the job is accepted, or
     * shutdown has begun.
     */
    method Enqueue(c: nat, job: Option<Job>, turns: seq<seq<Action>>) returns (returned: bool)
      requires Valid() && c < |callers| && callers[c] == Outside
      modifies this
      ensures Valid() && c < |callers| && old(history) <= history && old(accepted) <= accepted
      ensures returned ==> callers[c] == Outside
      ensures returned && job.Some? ==> stopping || job.value in accepted[|old(accepted)|..]
      ensures returned && job.None? ==> accepted == old(accepted)
    {
      hide Valid, NobodyAsleep;
      if job.None? {
        return true;
      }
      Take(CallEnqueue(c, job));
      var locked, rest := LockAsCaller(c, turns);
      if !locked {
        return false;
      }
      var pushed := PushJob(c, job.value);
      if !pushed {
        return true;
      }
      if rest == [] {
        return false;
      }
      ghost var now := accepted;
      assert now[|now| - 1] == job.value;
      LetOthersRun(CallerThread(c), rest[0]);
      assert accepted[|now| - 1] == job.value;
      NotifyOneWorker(c);
      return true;
    }

    /** `notify_one`: wakes some sleeping worker, if there is any. */
    method NotifyOneWorker(c: nat)
      requires Valid() && c < |callers| && callers[c] == Notifying
      modifies this`workers, this`callers, this`history
      ensures Valid() && callers == old(callers)[c := Outside] && old(history) <= history
    {
      hide Inv, Run, CanRun;
      callers := callers[c := Outside];
      if exists w: nat :: w < |workers| && workers[w].Asleep? {
        var w: nat :| w < |workers| && workers[w].Asleep?;
        workers := workers[w := Locking];
        Record(NotifyOne(c, Some(w)));
      } else {
        Record(NotifyOne(c, None));
      }
    }

    /** The join loop: waits for each worker in turn to have exited. */
    method JoinAll(c: nat, turns: seq<seq<Action>>) returns (returned: bool)
      requires Valid() && c < |callers| && callers[c] == Joining(0)
      modifies this
      ensures Valid() && c < |callers| && old(history) <= history
      ensures returned ==> callers[c] == Closed
    {
      hide Inv, Run, CanRun;
      var rest, next: nat := turns, 0;
      while next < |workers|
        invariant Valid() && c < |callers| && callers[c] == Joining(next) && old(history) <= history
        decreases |rest|
      {
        if rest == [] {
          return false;
        }
        LetOthersRun(CallerThread(c), rest[0]);
        rest := rest[1..];
        if next < |workers| && workers[next].Exited? {
          next := next + 1;
          callers := callers[c := Joining(next)];
          Record(Join(c));
        }
      }
      callers := callers[c := Closed];
      Record(Join(c));
      return true;
    }

    /** The critical section of `shutdown`. */
    method BeginShutdown(c: nat) returns (first: bool)
      requires Valid() && c < |callers| && callers[c] == ShutdownHolding
      modifies this
      ensures Valid() && c < |callers| && old(history) <= history
      ensures stopping && (first <==> !old(stopping))
      ensures callers[c] == if first then NotifyingAll else Outside
    {
      hide Inv, Run, CanRun;
      queueMutex := Free;
      if stopping {
        callers := callers[c := Outside];
        Record(CallerCritical(c));
        return false;
      }
      stopping := true;
      callers := callers[c := NotifyingAll];
      Record(CallerCritical(c));
      return true;
    }

    method NotifyAllWorkers(c: nat)
      requires Valid() && c < |callers| && callers[c] == NotifyingAll
      modifies this
      ensures Valid() && c < |callers| && callers[c] == Joining(0) && old(history) <= history
      ensures stopping == old(stopping)
    {
      hide Inv, Run, CanRun;
      callers, workers := callers[c := Joining(0)], WakeAll(workers);
      Record(NotifyAll(c));
    }

    /**
     * A call of `shutdown`. A second one returns at once; when the first one returns, every accepted job has finished
     * and every worker has left its loop.
     */
    method Shutdown(c: nat, turns: seq<seq<Action>>) returns (returned: bool, first: bool)
      requires Valid() && c < |callers| && callers[c] == Outside
      modifies this
      ensures Valid() && c < |callers| && old(history) <= history
      ensures returned ==> stopping && callers[c] == if first then Closed else Outside
      ensures returned && first ==> AllDone(State())
    {
      hide Valid, NobodyAsleep, AllDone;
      Take(CallShutdown(c));
      var locked, rest := LockAsCaller(c, turns);
      if !locked {
        return false, false;
      }
      first := BeginShutdown(c);
      if !first {
        return true, false;
      }
      if rest == [] {
        return false, true;
      }
      LetOthersRun(CallerThread(c), rest[0]);
      NotifyAllWorkers(c);
      returned := JoinAll(c, rest[1..]);
      if returned {
        Invariant();
        ReturnedShutdownHasDrained(State(), c);
      }
    }
  }
}
