/** The background job queues of redis-3.0.6/src/bio.c as interleaved steps.

    Every job type has its own mutex, condition variable, job list and counter,
    one worker thread, and any number of other threads that submit jobs or ask
    how many are pending.  A step is one statement of one thread. */
module BioQueue {

  datatype Job = Job(time: int, arg1: int, arg2: int, arg3: int)
  type ThreadId = nat

  datatype Lock = Free | HeldByWorker | HeldBy(thread: ThreadId)

  // Where the worker of a queue stands in its loop.
  datatype WorkerAt =
    | Starting              // before the first lock
    | Top                   // top of the loop, lock held
    | Waiting               // inside pthread_cond_wait, asleep, lock released
    | Woken                 // signalled, waiting to take the lock again
    | Popped(job: Job)      // holds the first job, lock still held
    | Running(job: Job)     // lock released, job not done yet
    | Ran(job: Job)         // job done, waiting for the lock
    | Deleting(job: Job)    // lock held, node still in the list
    | Counting              // node deleted, counter not yet decremented

  // Where another thread stands inside a call.
  datatype ClientAt =
    | Adding(job: Job)      // bioCreateBackgroundJob, lock held
    | Added                 // job appended, counter not yet incremented
    | Counted               // counter incremented, not yet signalled
    | Signalled
    | Reading               // bioPendingJobsOfType, lock held
    | Read(count: int)      // counter read, lock held

  // One queue; `submitted`, `removed` and `executed` record its history.
  datatype Queue = Queue(
    lock: Lock, worker: WorkerAt, client: ClientAt,
    jobs: seq<Job>, pending: int,
    submitted: seq<Job>, removed: seq<Job>, executed: seq<Job>)

  datatype Action =
    | WorkerLock | WorkerCheck | WorkerWake | WorkerUnlock | WorkerRun | WorkerRelock | WorkerDelete | WorkerCount
    | ClientLock(thread: ThreadId, job: Job) | ClientAppend | ClientCount | ClientSignal
    | ReaderLock(thread: ThreadId) | ReaderRead | ClientUnlock

  ghost predicate Initial(q: Queue) {
    && q.lock == Free && q.worker == Starting && q.jobs == [] && q.pending == 0
    && q.submitted == [] && q.removed == [] && q.executed == []
  }

  predicate Enabled(q: Queue, a: Action) {
    match a
    case WorkerLock => q.lock == Free && (q.worker == Starting || q.worker == Woken)
    case WorkerCheck => q.lock == HeldByWorker && q.worker == Top
    case WorkerWake => q.worker == Waiting                       // a spurious wake-up
    case WorkerUnlock => q.lock == HeldByWorker && q.worker.Popped?
    case WorkerRun => q.worker.Running?
    case WorkerRelock => q.lock == Free && q.worker.Ran?
    case WorkerDelete => q.lock == HeldByWorker && q.worker.Deleting? && q.jobs != []
    case WorkerCount => q.lock == HeldByWorker && q.worker == Counting
    case ClientLock(_, _) => q.lock == Free
    case ClientAppend => q.lock.HeldBy? && q.client.Adding?
    case ClientCount => q.lock.HeldBy? && q.client == Added
    case ClientSignal => q.lock.HeldBy? && q.client == Counted
    case ReaderLock(_) => q.lock == Free
    case ReaderRead => q.lock.HeldBy? && q.client == Reading
    case ClientUnlock => q.lock.HeldBy? && (q.client == Signalled || q.client.Read?)
  }

  function Step(q: Queue, a: Action): Queue
    requires Enabled(q, a)
  {
    match a
    case WorkerLock => q.(lock := HeldByWorker, worker := Top)
    case WorkerCheck =>
      if q.jobs == [] then q.(lock := Free, worker := Waiting)
      else q.(worker := Popped(q.jobs[0]))
    case WorkerWake => q.(worker := Woken)
    case WorkerUnlock => q.(lock := Free, worker := Running(q.worker.job))
    case WorkerRun => q.(worker := Ran(q.worker.job), executed := q.executed + [q.worker.job])
    case WorkerRelock => q.(lock := HeldByWorker, worker := Deleting(q.worker.job))
    case WorkerDelete => q.(worker := Counting, jobs := q.jobs[1..], removed := q.removed + [q.jobs[0]])
    case WorkerCount => q.(worker := Top, pending := q.pending - 1)
    case ClientLock(t, job) => q.(lock := HeldBy(t), client := Adding(job))
    case ClientAppend =>
      q.(client := Added, jobs := q.jobs + [q.client.job], submitted := q.submitted + [q.client.job])
    case ClientCount => q.(client := Counted, pending := q.pending + 1)
    case ClientSignal => q.(client := Signalled, worker := if q.worker == Waiting then Woken else q.worker)
    case ReaderLock(t) => q.(lock := HeldBy(t), client := Reading)
    case ReaderRead => q.(client := Read(q.pending))
    case ClientUnlock => q.(lock := Free)
  }

  // ----- What every step keeps -----

  // The worker has executed the job at the front but not taken it out yet.
  predicate AheadByOne(q: Queue) { q.worker.Ran? || q.worker.Deleting? }

  predicate HoldsFront(q: Queue) {
    q.worker.Popped? || q.worker.Running? || q.worker.Ran? || q.worker.Deleting?
  }

  predicate WorkerHolds(w: WorkerAt) { w == Top || w.Popped? || w.Deleting? || w == Counting }

  ghost predicate Inv(q: Queue) {
    // the lock is the worker's exactly while the worker is in a locked part of its loop
    && (q.lock == HeldByWorker <==> WorkerHolds(q.worker))
    // the counter is off by one only between the two statements of an update
    && q.pending == |q.jobs| +
         (if q.lock.HeldBy? && q.client == Added then -1 else 0) + (if q.worker == Counting then 1 else 0)
    // nothing is lost and nothing overtakes
    && q.submitted == q.removed + q.jobs
    && (HoldsFront(q) ==> q.jobs != [] && q.worker.job == q.jobs[0])
    && q.executed == (if AheadByOne(q) then q.removed + [q.worker.job] else q.removed)
    // a sleeping worker has nothing to do, unless a signal is on its way
    && (q.worker == Waiting && q.jobs != [] ==> q.lock.HeldBy? && (q.client == Added || q.client == Counted))
  }

  lemma InitialInv(q: Queue)
    requires Initial(q)
    ensures Inv(q)
  {
  }

  lemma StepInv(q: Queue, a: Action)
    requires Inv(q) && Enabled(q, a)
    ensures Inv(Step(q, a))
  {
    var q' := Step(q, a);
    match a
    case WorkerDelete =>
      assert q.removed + q.jobs == (q.removed + [q.jobs[0]]) + q.jobs[1..];
    case ClientAppend =>
      assert (q.removed + q.jobs) + [q.client.job] == q.removed + (q.jobs + [q.client.job]);
    case _ =>
  }

  // ----- Whole runs of all the queues -----

  // REDIS_BIO_NUM_OPS queues; a step belongs to one job type.
  datatype Event = Event(kind: nat, action: Action)

  predicate Enabled'(s: seq<Queue>, e: Event) { e.kind < |s| && Enabled(s[e.kind], e.action) }

  function Step'(s: seq<Queue>, e: Event): seq<Queue>
    requires Enabled'(s, e)
  {
    s[e.kind := Step(s[e.kind], e.action)]
  }

  // A run from s: every event was possible when it happened.
  predicate Possible(s: seq<Queue>, run: seq<Event>)
    decreases |run|, 0
  {
    run == [] || (Possible(s, run[..|run| - 1]) && Enabled'(After(s, run[..|run| - 1]), run[|run| - 1]))
  }

  function After(s: seq<Queue>, run: seq<Event>): seq<Queue>
    requires Possible(s, run)
    decreases |run|, 1
  {
    if run == [] then s else Step'(After(s, run[..|run| - 1]), run[|run| - 1])
  }

  ghost predicate Reachable(t: seq<Queue>) {
    exists s, run :: (forall k | 0 <= k < |s| :: Initial(s[k])) && Possible(s, run) && t == After(s, run)
  }

  lemma {:induction false} RunInv(s: seq<Queue>, run: seq<Event>)
    requires forall k | 0 <= k < |s| :: Initial(s[k])
    requires Possible(s, run)
    ensures forall k | 0 <= k < |After(s, run)| :: Inv(After(s, run)[k])
  {
    hide Inv, Initial, Step, Enabled;
    if run == [] {
      forall k | 0 <= k < |s| ensures Inv(s[k]) { InitialInv(s[k]); }
    } else {
      var front, e := run[..|run| - 1], run[|run| - 1];
      RunInv(s, front);
      StepInv(After(s, front)[e.kind], e.action);
    }
  }

  lemma ReachableInv(t: seq<Queue>, k: nat)
    requires Reachable(t) && k < |t|
    ensures Inv(t[k])
  {
    hide Inv, Initial;
    var s, run :| (forall i | 0 <= i < |s| :: Initial(s[i])) && Possible(s, run) && t == After(s, run);
    RunInv(s, run);
  }

  // Whenever nobody holds the lock the counter is the length of the list.
  lemma PendingIsLength(t: seq<Queue>, k: nat)
    requires Reachable(t) && k < |t| && t[k].lock == Free
    ensures t[k].pending == |t[k].jobs|
  {
    hide Reachable;
    ReachableInv(t, k);
  }

  // Jobs of one type run exactly once, in the order they were submitted.
  lemma ExecutedInOrder(t: seq<Queue>, k: nat)
    requires Reachable(t) && k < |t|
    ensures t[k].executed <= t[k].submitted
  {
    hide Reachable;
    ReachableInv(t, k);
  }

  // A reader that is told 0 knows that every submitted job has completed.
  lemma ZeroMeansAllDone(t: seq<Queue>, k: nat)
    requires Reachable(t) && k < |t| && Enabled(t[k], ReaderRead)
    requires Step(t[k], ReaderRead).client == Read(0)
    ensures t[k].executed == t[k].submitted && t[k].jobs == []
  {
    hide Reachable;
    ReachableInv(t, k);
  }

  // No wake-up is lost: with the lock free, a worker with jobs to do is not asleep.
  lemma NoLostWakeup(t: seq<Queue>, k: nat)
    requires Reachable(t) && k < |t| && t[k].lock == Free && t[k].jobs != []
    ensures t[k].worker != Waiting
    ensures exists a :: Enabled(t[k], a) && (a == WorkerLock || a == WorkerRun || a == WorkerRelock)
  {
    hide Reachable;
    ReachableInv(t, k);
    var q := t[k];
    if q.worker.Running? {
      assert Enabled(q, WorkerRun);
    } else if q.worker.Ran? {
      assert Enabled(q, WorkerRelock);
    } else {
      assert Enabled(q, WorkerLock);
    }
  }
}
