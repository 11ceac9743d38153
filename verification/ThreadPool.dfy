/** The thread pool as an interleaving of its workers and its callers around one mutex and one condition variable. */
module ThreadPools {
  import opened Wrappers

  /** Jobs are told apart by nothing but their value; the same job may be queued twice. */
  type Job = int

  function Clamp(n: nat, low: nat, high: nat): nat {
    if n < low then low else if n > high then high else n
  }

  /** The number of workers the constructor starts. */
  function WorkerCount(requested: nat): (n: nat)
    ensures 1 <= n <= 16
    ensures 1 <= requested <= 16 ==> n == requested
    ensures requested == 0 ==> n == 2
    ensures requested > 16 ==> n == 16
  {
    Clamp(if requested == 0 then 2 else requested, 1, 16)
  }

  /**
   * Where a worker stands in its loop. Locking: about to take the mutex, or to take it again after a wait. Testing
   * and Deciding: holding it, before the wait predicate and after it was found true. Asleep: inside the wait.
   */
  datatype Worker = Locking | Testing | Asleep | Deciding | Running(job: Job) | Exited

  /** Where another thread stands in `enqueue` or `shutdown`; Closed: returned from the shutdown that joined. */
  datatype Caller =
    | Outside
    | EnqueueLocking(job: Job)
    | EnqueueHolding(job: Job)
    | Notifying
    | ShutdownLocking
    | ShutdownHolding
    | NotifyingAll
    | Joining(next: nat)
    | Closed

  datatype Mutex = Free | HeldByWorker(worker: nat) | HeldByCaller(caller: nat)

  /** The pool's own fields and threads, with a record of the jobs accepted, taken and finished. */
  datatype Pool = Pool(
    workers: seq<Worker>,
    jobs: seq<Job>,
    stopping: bool,
    mutex: Mutex,
    callers: seq<Caller>,
    accepted: seq<Job>,
    taken: seq<Job>,
    finished: multiset<Job>)

  datatype Action =
    | WorkerLock(w: nat)
    | WorkerTest(w: nat)
    | SpuriousWake(w: nat)
    | WorkerDecide(w: nat)
    | WorkerFinish(w: nat, threw: bool)
    | CallEnqueue(c: nat, job: Option<Job>)
    | CallShutdown(c: nat)
    | CallerLock(c: nat)
    | CallerCritical(c: nat)
    | NotifyOne(c: nat, woken: Option<nat>)
    | NotifyAll(c: nat)
    | Join(c: nat)

  function Start(requested: nat, callers: nat): Pool {
    Pool(seq(WorkerCount(requested), _ => Locking), [], false, Free, seq(callers, _ => Outside), [], [], multiset{})
  }

  predicate WorkerAt(s: Pool, w: nat, pc: Worker) { w < |s.workers| && s.workers[w] == pc }

  predicate NobodyAsleep(s: Pool) {
    forall w :: 0 <= w < |s.workers| ==> !s.workers[w].Asleep?
  }

  predicate IsCaller(s: Pool, c: nat) { c < |s.callers| }

  predicate Enabled(s: Pool, a: Action) {
    match a
    case WorkerLock(w) => WorkerAt(s, w, Locking) && s.mutex.Free?
    case WorkerTest(w) => WorkerAt(s, w, Testing)
    case SpuriousWake(w) => WorkerAt(s, w, Asleep)
    case WorkerDecide(w) => WorkerAt(s, w, Deciding) && (s.stopping || s.jobs != [])
    case WorkerFinish(w, _) => w < |s.workers| && s.workers[w].Running?
    case CallEnqueue(c, _) => IsCaller(s, c) && s.callers[c].Outside?
    case CallShutdown(c) => IsCaller(s, c) && s.callers[c].Outside?
    case CallerLock(c) =>
      IsCaller(s, c) && (s.callers[c].EnqueueLocking? || s.callers[c].ShutdownLocking?) && s.mutex.Free?
    case CallerCritical(c) => IsCaller(s, c) && (s.callers[c].EnqueueHolding? || s.callers[c].ShutdownHolding?)
    case NotifyOne(c, woken) =>
      IsCaller(s, c) && s.callers[c].Notifying?
      && (if woken.Some? then WorkerAt(s, woken.value, Asleep) else NobodyAsleep(s))
    case NotifyAll(c) => IsCaller(s, c) && s.callers[c].NotifyingAll?
    case Join(c) =>
      IsCaller(s, c) && s.callers[c].Joining?
      && (s.callers[c].next < |s.workers| ==> s.workers[s.callers[c].next].Exited?)
  }

  function WakeAll(workers: seq<Worker>): (r: seq<Worker>)
    ensures |r| == |workers|
    ensures forall w :: 0 <= w < |r| ==> r[w] == if workers[w].Asleep? then Locking else workers[w]
  {
    seq(|workers|, w requires 0 <= w < |workers| => if workers[w].Asleep? then Locking else workers[w])
  }

  function Move(s: Pool, w: nat, pc: Worker): Pool
    requires w < |s.workers|
  {
    s.(workers := s.workers[w := pc])
  }

  function MoveCaller(s: Pool, c: nat, pc: Caller): Pool
    requires c < |s.callers|
  {
    s.(callers := s.callers[c := pc])
  }

  function Next(s: Pool, a: Action): Pool
    requires Enabled(s, a)
  {
    match a
    case WorkerLock(w) => Move(s, w, Testing).(mutex := HeldByWorker(w))
    case WorkerTest(w) =>
      if s.stopping || s.jobs != [] then Move(s, w, Deciding) else Move(s, w, Asleep).(mutex := Free)
    case SpuriousWake(w) => Move(s, w, Locking)
    case WorkerDecide(w) =>
      if s.jobs == [] then Move(s, w, Exited).(mutex := Free)
      else Move(s, w, Running(s.jobs[0])).(mutex := Free, jobs := s.jobs[1..], taken := s.taken + [s.jobs[0]])
    case WorkerFinish(w, threw) => Move(s, w, Locking).(finished := s.finished + multiset{s.workers[w].job})
    case CallEnqueue(c, job) => if job.None? then s else MoveCaller(s, c, EnqueueLocking(job.value))
    case CallShutdown(c) => MoveCaller(s, c, ShutdownLocking)
    case CallerLock(c) =>
      MoveCaller(s, c, if s.callers[c].EnqueueLocking? then EnqueueHolding(s.callers[c].job) else ShutdownHolding)
        .(mutex := HeldByCaller(c))
    case CallerCritical(c) =>
      if s.stopping then MoveCaller(s, c, Outside).(mutex := Free)
      else if s.callers[c].EnqueueHolding? then
        var job := s.callers[c].job;
        MoveCaller(s, c, Notifying).(mutex := Free, jobs := s.jobs + [job], accepted := s.accepted + [job])
      else MoveCaller(s, c, NotifyingAll).(mutex := Free, stopping := true)
    case NotifyOne(c, woken) =>
      var t := MoveCaller(s, c, Outside);
      if woken.None? then t else Move(t, woken.value, Locking)
    case NotifyAll(c) => MoveCaller(s, c, Joining(0)).(workers := WakeAll(s.workers))
    case Join(c) =>
      MoveCaller(s, c, if s.callers[c].next < |s.workers| then Joining(s.callers[c].next + 1) else Closed)
  }

  predicate CanRun(s: Pool, actions: seq<Action>)
    decreases |actions|
  {
    actions == [] || (Enabled(s, actions[0]) && CanRun(Next(s, actions[0]), actions[1..]))
  }

  function Run(s: Pool, actions: seq<Action>): Pool
    requires CanRun(s, actions)
    decreases |actions|
  {
    if actions == [] then s else Run(Next(s, actions[0]), actions[1..])
  }

  // ----------------------------------------------------------------- counting

  function Sum<T>(s: seq<T>, weight: T -> nat): nat {
    if s == [] then 0 else Sum(s[..|s| - 1], weight) + weight(s[|s| - 1])
  }

  lemma {:induction false} SumUpdate<T>(s: seq<T>, i: nat, x: T, weight: T -> nat)
    requires i < |s|
    ensures Sum(s[i := x], weight) + weight(s[i]) == Sum(s, weight) + weight(x)
    decreases |s|
  {
    var n := |s| - 1;
    if i < n {
      SumUpdate(s[..n], i, x, weight);
      assert s[i := x][..n] == s[..n][i := x];
    } else {
      assert s[i := x][..n] == s[..n];
    }
  }

  lemma {:induction false} SumZero<T>(s: seq<T>, weight: T -> nat)
    requires forall i :: 0 <= i < |s| ==> weight(s[i]) == 0
    ensures Sum(s, weight) == 0
    decreases |s|
  {
    if s != [] {
      SumZero(s[..|s| - 1], weight);
    }
  }

  function InHand(worker: Worker): multiset<Job> {
    if worker.Running? then multiset{worker.job} else multiset{}
  }

  /** The jobs in the hands of workers. */
  function Carried(workers: seq<Worker>): multiset<Job> {
    if workers == [] then multiset{} else Carried(workers[..|workers| - 1]) + InHand(workers[|workers| - 1])
  }

  lemma {:induction false} CarriedUpdate(workers: seq<Worker>, w: nat, pc: Worker)
    requires w < |workers|
    ensures Carried(workers[w := pc]) + InHand(workers[w]) == Carried(workers) + InHand(pc)
    decreases |workers|
  {
    hide InHand;
    var n := |workers| - 1;
    var moved := workers[w := pc];
    if w < n {
      CarriedUpdate(workers[..n], w, pc);
      assert moved[..n] == workers[..n][w := pc];
      assert moved[n] == workers[n];
      var rest := Carried(workers[..n][w := pc]);
      assert (rest + InHand(workers[n])) + InHand(workers[w]) == (rest + InHand(workers[w])) + InHand(workers[n]);
    } else {
      assert moved[..n] == workers[..n];
      assert moved[n] == pc;
    }
  }

  lemma {:induction false} CarriedWakeAll(workers: seq<Worker>)
    ensures Carried(WakeAll(workers)) == Carried(workers)
    decreases |workers|
  {
    if workers != [] {
      var n := |workers| - 1;
      CarriedWakeAll(workers[..n]);
      assert WakeAll(workers)[..n] == WakeAll(workers[..n]);
    }
  }

  lemma {:induction false} NothingCarried(workers: seq<Worker>)
    requires forall w :: 0 <= w < |workers| ==> !workers[w].Running?
    ensures Carried(workers) == multiset{}
    decreases |workers|
  {
    if workers != [] {
      NothingCarried(workers[..|workers| - 1]);
    }
  }

  /** Awake and not running a job: such a worker will look at the queue before it can sleep. */
  function AwakeWeight(worker: Worker): nat {
    if worker.Locking? || worker.Testing? || worker.Deciding? then 1 else 0
  }

  function NotifyingWeight(caller: Caller): nat { if caller.Notifying? then 1 else 0 }

  // ---------------------------------------------------------------- invariant

  predicate WorkerHolds(worker: Worker) { worker.Testing? || worker.Deciding? }

  predicate CallerHolds(caller: Caller) { caller.EnqueueHolding? || caller.ShutdownHolding? }

  /** The mutex is held by exactly the thread inside a critical section. */
  predicate MutualExclusion(s: Pool) {
    && (forall w :: 0 <= w < |s.workers| ==> (WorkerHolds(s.workers[w]) <==> s.mutex == HeldByWorker(w)))
    && (forall c :: 0 <= c < |s.callers| ==> (CallerHolds(s.callers[c]) <==> s.mutex == HeldByCaller(c)))
    && (s.mutex.HeldByWorker? ==> s.mutex.worker < |s.workers|)
    && (s.mutex.HeldByCaller? ==> s.mutex.caller < |s.callers|)
  }

  /** Jobs are taken in the order they were accepted, and every taken one is in a worker's hands or finished. */
  predicate Conservation(s: Pool) {
    && s.accepted == s.taken + s.jobs
    && multiset(s.taken) == s.finished + Carried(s.workers)
  }

  /** While a worker sleeps, every queued job has an awake worker or a pending notification of its own. */
  predicate NoLostWakeup(s: Pool) {
    forall w :: 0 <= w < |s.workers| && s.workers[w].Asleep? ==>
      |s.jobs| <= Sum(s.workers, AwakeWeight) + Sum(s.callers, NotifyingWeight)
  }

  predicate Decisions(s: Pool) {
    forall w :: 0 <= w < |s.workers| ==>
      (s.workers[w].Deciding? ==> s.stopping || s.jobs != [])
      && (s.workers[w].Exited? ==> s.stopping && s.jobs == [])
  }

  predicate Closes(caller: Caller) { caller.NotifyingAll? || caller.Joining? || caller.Closed? }

  /** Of the workers, the first `next` are seen to have exited by a thread at this point of `shutdown`. */
  predicate Joined(s: Pool, caller: Caller) {
    forall w :: 0 <= w < |s.workers| ==>
      (caller.Joining? && w < caller.next ==> s.workers[w].Exited?) && (caller.Closed? ==> s.workers[w].Exited?)
  }

  predicate OneCloser(s: Pool) {
    && (s.stopping <==> exists c :: 0 <= c < |s.callers| && Closes(s.callers[c]))
    && (forall c, d :: 0 <= c < |s.callers| && 0 <= d < |s.callers| && Closes(s.callers[c]) && Closes(s.callers[d])
          ==> c == d)
  }

  /** One caller exactly is past setting `stopping`; once it has notified all workers, nobody sleeps. */
  predicate Closing(s: Pool) {
    && OneCloser(s)
    && (forall c :: 0 <= c < |s.callers| ==>
          Joined(s, s.callers[c]) && (s.callers[c].Joining? || s.callers[c].Closed? ==> NobodyAsleep(s)))
  }

  predicate Inv(s: Pool) {
    s.workers != [] && MutualExclusion(s) && Conservation(s) && NoLostWakeup(s) && Decisions(s) && Closing(s)
  }

  lemma InvStart(requested: nat, callers: nat)
    ensures Inv(Start(requested, callers))
  {
    NothingCarried(Start(requested, callers).workers);
  }
}
