/**
  The worker pool of crates/compact-core/src/parallel/mod.rs as a step machine.

  One scheduler thread sends numbered jobs into a bounded channel. The workers share the receiving end
  behind a mutex, work on one job at a time and send the result into a second bounded channel. The
  collector, on the calling thread, puts the results back in order. `Apply` performs one atomic action of
  one thread; an interleaving is a sequence of actions, so a statement about every executable sequence is
  a statement about every schedule.

  The machine is generic: encode and decode differ only in the fields of `Task`.
*/
module WorkerPool {
  import opened Wrappers

  datatype Job<J> = Job(index: nat, input: J)

  /** A worker's answer. The collector never looks at the index of a failed one. */
  datatype Report<R> = Failed(index: nat) | Finished(index: nat, value: R)

  /** What a run is asked to do. */
  datatype Task<!J, !R, !S> = Task(
    inputs: seq<J>,             // the jobs the scheduler sends, in order
    scheduled: bool,            // whether the scheduler's loop then ends without an error
    work: J -> Option<R>,       // what a worker does with one job
    sink: (S, R) -> Option<S>,  // what the collector does with the next result in order
    start: S)

  datatype Scheduler = Sending(next: nat) | SchedulerDone(count: Option<nat>)

  datatype Worker<J, R> =
    | Idle                      // about to lock the shared receiver
    | Waiting                   // holds the lock, blocked in recv
    | Busy(job: Job<J>)         // lock released, working
    | Reporting(report: Report<R>)
    | Gone

  datatype Collector<R, S> =
    | Collecting(next: nat, count: nat, pending: map<nat, R>, sink: S)
    | Stopped(collected: Option<(nat, S)>)

  datatype State<J, R, S> = State(
    scheduler: Scheduler,
    jobs: seq<Job<J>>,
    workers: seq<Worker<J, R>>,
    results: seq<Report<R>>,
    collector: Collector<R, S>,
    panicked: bool)

  datatype Action =
    | Send                      // scheduler: send the next job, or find the receiver gone
    | EndSchedule               // scheduler: return, dropping its sender
    | Lock(w: nat)
    | Receive(w: nat)           // worker: take a job, or find the channel closed
    | Work(w: nat)
    | Vanish(w: nat)            // fault: the thread dies while it holds a job
    | Deliver(w: nat)           // worker: send its report, or find the receiver gone
    | Collect                   // collector: take one report
    | EndCollect                // collector: every sender is gone

  ghost predicate AllGone<J, R>(workers: seq<Worker<J, R>>) {
    forall w :: 0 <= w < |workers| ==> workers[w].Gone?
  }

  ghost predicate LockFree<J, R>(workers: seq<Worker<J, R>>) {
    forall w :: 0 <= w < |workers| ==> !workers[w].Waiting?
  }

  function Initial<J, R, S>(task: Task<J, R, S>, workerCount: nat): State<J, R, S> {
    State(Sending(0), [], seq(workerCount, _ => Idle), [], Collecting(0, 0, map[], task.start), false)
  }

  /** The collector's inner loop: hand over every pending result that is next in order. */
  function Drain<R, S>(sink: (S, R) -> Option<S>, next: nat, pending: map<nat, R>, state: S)
    : (r: Option<(nat, map<nat, R>, S)>)
    decreases |pending|
  {
    if next !in pending then Some((next, pending, state))
    else
      assert (pending - {next}).Keys < pending.Keys;
      assert |(pending - {next}).Keys| < |pending.Keys|;
      match sink(state, pending[next])
      case None => None
      case Some(state') => Drain(sink, next + 1, pending - {next}, state')
  }

  /** One round of the inner loop. */
  lemma {:induction false} DrainOne<R, S>(sink: (S, R) -> Option<S>, next: nat, pending: map<nat, R>, state: S)
    requires next in pending
    ensures |pending - {next}| == |pending| - 1
    ensures Drain(sink, next, pending, state) ==
            match sink(state, pending[next]) case None => None case Some(state') => Drain(sink, next + 1, pending - {next}, state')
  {
    assert (pending - {next}).Keys == pending.Keys - {next};
    assert |(pending - {next}).Keys| == |pending.Keys| - 1;
  }

  lemma {:induction false} DrainNothing<R, S>(sink: (S, R) -> Option<S>, next: nat, pending: map<nat, R>, state: S)
    requires next !in pending
    ensures Drain(sink, next, pending, state) == Some((next, pending, state))
  {
  }

  function TakeReport<R, S>(sink: (S, R) -> Option<S>, c: Collector<R, S>, report: Report<R>): Collector<R, S>
    requires c.Collecting?
  {
    match report
    case Failed(_) => Stopped(None)
    case Finished(index, value) =>
      match Drain(sink, c.next, c.pending[index := value], c.sink)
      case None => Stopped(None)
      case Some((next, pending, state)) => Collecting(next, c.count + 1, pending, state)
  }

  /** The collector as the object it is; `state` is what it has written, counted and recorded so far. */
  class OrderedCollector<R(==), S> {
    const sink: (S, R) -> Option<S>
    var pending: map<nat, R>
    var nextToWrite: nat
    var resultCount: nat
    var state: S

    ghost function View(): Collector<R, S>
      reads this
    {
      Collecting(nextToWrite, resultCount, pending, state)
    }

    constructor (sink: (S, R) -> Option<S>, start: S)
      ensures this.sink == sink && View() == Collecting(0, 0, map[], start)
    {
      this.sink, pending, nextToWrite, resultCount, state := sink, map[], 0, 0, start;
    }

    /** One received result: keep it, then hand over every result that is now next in order. */
    method Take(index: nat, value: R) returns (ok: bool)
      modifies this
      ensures var after := TakeReport(sink, old(View()), Finished(index, value));
              ok == after.Collecting? && (ok ==> View() == after)
    {
      hide Drain;
      ghost var goal := TakeReport(sink, View(), Finished(index, value));
      resultCount := resultCount + 1;
      pending := pending[index := value];
      while nextToWrite in pending
        invariant resultCount == old(resultCount) + 1
        invariant goal == match Drain(sink, nextToWrite, pending, state)
                          case None => Stopped(None)
                          case Some((n, p, s)) => Collecting(n, resultCount, p, s)
        decreases |pending|
      {
        var next := pending[nextToWrite];
        DrainOne(sink, nextToWrite, pending, state);
        var after := sink(state, next);
        if after.None? {
          return false;
        }
        pending := pending - {nextToWrite};
        state := after.value;
        nextToWrite := nextToWrite + 1;
      }
      DrainNothing(sink, nextToWrite, pending, state);
      return true;
    }

    /**
      Every sender is gone: the collector's own completeness check. A collector in order passes it exactly when no
      result is pending, and then returns what handing over its jobs one after the other gives.
    */
    method Finish<J>(ghost task: Task<J, R, S>) returns (collected: Option<(nat, S)>)
      ensures collected == Complete(View())
      ensures Ordered(task, View()) ==> (collected.Some? <==> pending == map[])
      ensures Ordered(task, View()) && collected.Some? ==>
                collected.value.0 <= |task.inputs| && Fold(task, collected.value.0) == Some(collected.value.1)
    {
      return if nextToWrite != resultCount || pending != map[] then None else Some((resultCount, state));
    }
  }

  /** What a collector returns once every sender is gone. */
  ghost function Complete<R, S>(c: Collector<R, S>): Option<(nat, S)>
    requires c.Collecting?
  {
    if c.next != c.count || c.pending != map[] then None else Some((c.count, c.sink))
  }

  /** One atomic action, or None when the acting thread is blocked (or not at that point). */
  ghost function Apply<J, R, S>(task: Task<J, R, S>, capacity: nat, s: State<J, R, S>,
                                a: Action): Option<State<J, R, S>> {
    match a
    case Send =>
      if !s.scheduler.Sending? || s.scheduler.next >= |task.inputs| then None
      else if AllGone(s.workers) then Some(s.(scheduler := SchedulerDone(None)))
      else if |s.jobs| < capacity then
        var i := s.scheduler.next;
        Some(s.(scheduler := Sending(i + 1), jobs := s.jobs + [Job(i, task.inputs[i])]))
      else None
    case EndSchedule =>
      if !s.scheduler.Sending? || s.scheduler.next < |task.inputs| then None
      else Some(s.(scheduler := SchedulerDone(if task.scheduled then Some(s.scheduler.next) else None)))
    case Lock(w) =>
      if w < |s.workers| && s.workers[w].Idle? && LockFree(s.workers)
      then Some(s.(workers := s.workers[w := Waiting])) else None
    case Receive(w) =>
      if w >= |s.workers| || !s.workers[w].Waiting? then None
      else if |s.jobs| > 0 then Some(s.(workers := s.workers[w := Busy(s.jobs[0])], jobs := s.jobs[1..]))
      else if s.scheduler.SchedulerDone? then Some(s.(workers := s.workers[w := Gone]))
      else None
    case Work(w) =>
      if w >= |s.workers| || !s.workers[w].Busy? then None
      else
        var job := s.workers[w].job;
        var report := match task.work(job.input)
          case None => Failed(job.index)
          case Some(r) => Finished(job.index, r);
        Some(s.(workers := s.workers[w := Reporting(report)]))
    case Vanish(w) =>
      if w >= |s.workers| || !s.workers[w].Busy? then None
      else Some(s.(workers := s.workers[w := Gone], panicked := true))
    case Deliver(w) =>
      if w >= |s.workers| || !s.workers[w].Reporting? then None
      else if s.collector.Stopped? then Some(s.(workers := s.workers[w := Gone]))
      else if |s.results| < capacity then
        Some(s.(workers := s.workers[w := Idle], results := s.results + [s.workers[w].report]))
      else None
    case Collect =>
      if !s.collector.Collecting? || |s.results| == 0 then None
      else
        var collector := TakeReport(task.sink, s.collector, s.results[0]);
        // A collector that returns drops the receiver, and the undelivered reports with it.
        Some(s.(collector := collector, results := if collector.Stopped? then [] else s.results[1..]))
    case EndCollect =>
      if !s.collector.Collecting? || |s.results| > 0 || !AllGone(s.workers) then None
      else Some(s.(collector := Stopped(Complete(s.collector))))
  }

  ghost function Execute<J, R, S>(task: Task<J, R, S>, capacity: nat, s: State<J, R, S>, actions: seq<Action>)
    : Option<State<J, R, S>>
    decreases |actions|
  {
    if actions == [] then Some(s)
    else
      match Apply(task, capacity, s, actions[0])
      case None => None
      case Some(s') => Execute(task, capacity, s', actions[1..])
  }

  /** Every thread has returned. */
  ghost predicate Over<J, R, S>(s: State<J, R, S>) {
    s.scheduler.SchedulerDone? && AllGone(s.workers) && s.collector.Stopped?
  }

  /** The comparison of job count and result count, after the collector's own check. */
  function Checked<J, R, S>(s: State<J, R, S>): Option<S>
    requires s.scheduler.SchedulerDone? && s.collector.Stopped?
  {
    match (s.scheduler.count, s.collector.collected)
    case (Some(jobCount), Some((resultCount, sink))) => if jobCount == resultCount then Some(sink) else None
    case (_, _) => None
  }

  /** What the calling thread returns once it has joined the scheduler and the workers. */
  function Outcome<J, R, S>(s: State<J, R, S>): Option<S>
    requires s.scheduler.SchedulerDone? && s.collector.Stopped?
  {
    if s.panicked then None else Checked(s)
  }

  // ----- the reference: one thread, one job after the other -----

  function Fold<J, R, S>(task: Task<J, R, S>, n: nat): Option<S>
    requires n <= |task.inputs|
  {
    if n == 0 then Some(task.start)
    else
      match (Fold(task, n - 1), task.work(task.inputs[n - 1]))
      case (Some(state), Some(r)) => task.sink(state, r)
      case (_, _) => None
  }

  function Sequential<J, R, S>(task: Task<J, R, S>): Option<S> {
    if task.scheduled then Fold(task, |task.inputs|) else None
  }

  lemma {:induction false} FoldPrefix<J, R, S>(task: Task<J, R, S>, m: nat, n: nat)
    requires m <= n <= |task.inputs|
    requires Fold(task, n).Some?
    ensures Fold(task, m).Some?
    ensures m < n ==> task.work(task.inputs[m]).Some?
    decreases n - m
  {
    if m < n {
      FoldPrefix(task, m, n - 1);
    }
  }

  // ----- where every sent job is -----

  function JobCount<J>(jobs: seq<Job<J>>, i: nat): nat {
    if jobs == [] then 0 else (if jobs[0].index == i then 1 else 0) + JobCount(jobs[1..], i)
  }

  function ReportCount<R>(reports: seq<Report<R>>, i: nat): nat {
    if reports == [] then 0 else (if reports[0].index == i then 1 else 0) + ReportCount(reports[1..], i)
  }

  function Holds<J, R>(worker: Worker<J, R>, i: nat): nat {
    match worker
    case Busy(job) => if job.index == i then 1 else 0
    case Reporting(report) => if report.index == i then 1 else 0
    case _ => 0
  }

  function WorkerCount<J, R>(workers: seq<Worker<J, R>>, i: nat): nat {
    if workers == [] then 0 else Holds(workers[0], i) + WorkerCount(workers[1..], i)
  }

  lemma {:induction false} JobsAppend<J>(jobs: seq<Job<J>>, job: Job<J>, i: nat)
    ensures JobCount(jobs + [job], i) == JobCount(jobs, i) + (if job.index == i then 1 else 0)
    decreases |jobs|
  {
    if jobs == [] {
      assert (jobs + [job])[1..] == [];
    } else {
      assert (jobs + [job])[1..] == jobs[1..] + [job];
      JobsAppend(jobs[1..], job, i);
    }
  }

  lemma {:induction false} ReportsAppend<R>(reports: seq<Report<R>>, report: Report<R>, i: nat)
    ensures ReportCount(reports + [report], i) == ReportCount(reports, i) + (if report.index == i then 1 else 0)
    decreases |reports|
  {
    if reports == [] {
      assert (reports + [report])[1..] == [];
    } else {
      assert (reports + [report])[1..] == reports[1..] + [report];
      ReportsAppend(reports[1..], report, i);
    }
  }

  lemma {:induction false} WorkerChange<J, R>(workers: seq<Worker<J, R>>, w: nat, worker: Worker<J, R>, i: nat)
    requires w < |workers|
    ensures WorkerCount(workers[w := worker], i) == WorkerCount(workers, i) - Holds(workers[w], i) + Holds(worker, i)
    decreases |workers|
  {
    var changed := workers[w := worker];
    if w == 0 {
      assert changed[1..] == workers[1..];
    } else {
      assert changed[1..] == workers[1..][w - 1 := worker];
      WorkerChange(workers[1..], w - 1, worker, i);
    }
  }

  lemma {:induction false} NothingHeld<J, R>(workers: seq<Worker<J, R>>, i: nat)
    requires forall w :: 0 <= w < |workers| ==> Holds(workers[w], i) == 0
    ensures WorkerCount(workers, i) == 0
    decreases |workers|
  {
    if workers != [] {
      NothingHeld(workers[1..], i);
    }
  }

  /** How often job `i` is in transit: sent, and no report has reached the collector yet. */
  function InFlight<J, R, S>(s: State<J, R, S>, i: nat): nat {
    JobCount(s.jobs, i) + WorkerCount(s.workers, i) + ReportCount(s.results, i)
  }

  function Sent<J, R, S>(task: Task<J, R, S>, s: State<J, R, S>): nat {
    match s.scheduler
    case Sending(next) => next
    case SchedulerDone(_) => |task.inputs|
  }

  // ----- the invariant -----

  ghost predicate JobRight<J, R, S>(task: Task<J, R, S>, job: Job<J>) {
    job.index < |task.inputs| && job.input == task.inputs[job.index]
  }

  ghost predicate ReportRight<J, R, S>(task: Task<J, R, S>, report: Report<R>) {
    report.index < |task.inputs| &&
    task.work(task.inputs[report.index]) == (if report.Failed? then None else Some(report.value))
  }

  ghost predicate WorkerRight<J, R, S>(task: Task<J, R, S>, worker: Worker<J, R>) {
    match worker
    case Busy(job) => JobRight(task, job)
    case Reporting(report) => ReportRight(task, report)
    case _ => true
  }

  /** Everything in transit belongs to the job whose number it carries. */
  ghost predicate Contents<J, R, S>(task: Task<J, R, S>, s: State<J, R, S>) {
    && (forall k :: 0 <= k < |s.jobs| ==> JobRight(task, s.jobs[k]))
    && (forall w :: 0 <= w < |s.workers| ==> WorkerRight(task, s.workers[w]))
    && (forall k :: 0 <= k < |s.results| ==> ReportRight(task, s.results[k]))
    && (s.scheduler.Sending? ==> s.scheduler.next <= |task.inputs|)
    && (s.scheduler.SchedulerDone? && s.scheduler.count.Some? ==> task.scheduled && s.scheduler.count.value == |task.inputs|)
  }

  /** Pending results are later than everything handed over, and each is its job's. */
  ghost predicate PendingRight<J, R, S>(task: Task<J, R, S>, next: nat, pending: map<nat, R>) {
    forall i :: i in pending ==> next <= i < |task.inputs| && task.work(task.inputs[i]) == Some(pending[i])
  }

  /** The collector has handed over exactly the first `next` results, in order. */
  ghost predicate Ordered<J, R, S>(task: Task<J, R, S>, c: Collector<R, S>) {
    match c
    case Collecting(next, count, pending, sink) =>
      && next <= |task.inputs|
      && Fold(task, next) == Some(sink)
      && count == next + |pending|
      && next !in pending
      && PendingRight(task, next, pending)
    case Stopped(None) => true
    case Stopped(Some((count, sink))) => count <= |task.inputs| && Fold(task, count) == Some(sink)
  }

  /** In how many places job `i` is: in transit, waiting in the collector, or handed over. */
  function Places<J, R, S>(s: State<J, R, S>, i: nat): nat {
    InFlight(s, i) + (if s.collector.Collecting? && Taken(s.collector.next, s.collector.pending, i) then 1 else 0)
  }

  /** Whether the report of job `i` has reached the collector. */
  predicate Taken<R>(next: nat, pending: map<nat, R>, i: nat) {
    i in pending || i < next
  }

  /** No job number is in two places; while no worker died, every sent one is somewhere. */
  ghost predicate Conserved<J, R, S>(task: Task<J, R, S>, s: State<J, R, S>) {
    s.collector.Collecting? ==>
      forall i: nat ::
        && Places(s, i) <= (if i < Sent(task, s) then 1 else 0)
        && (!s.panicked && i < Sent(task, s) ==> Places(s, i) == 1)
  }

  /** A worker leaves only when the job channel is drained and closed, the collector left, or it died. */
  ghost predicate Departures<J, R, S>(s: State<J, R, S>) {
    (exists w :: 0 <= w < |s.workers| && s.workers[w].Gone?) ==>
      (s.scheduler.SchedulerDone? && s.jobs == []) || s.collector.Stopped? || s.panicked
  }

  /** At most one worker holds the receiver's lock. */
  ghost predicate Locking<J, R>(workers: seq<Worker<J, R>>) {
    forall v, w :: 0 <= v < w < |workers| ==> !(workers[v].Waiting? && workers[w].Waiting?)
  }

  ghost predicate Invariant<J, R, S>(task: Task<J, R, S>, capacity: nat, s: State<J, R, S>) {
    && |s.workers| > 0
    && |s.jobs| <= capacity
    && |s.results| <= capacity
    && Contents(task, s)
    && Ordered(task, s.collector)
    && Conserved(task, s)
    && Departures(s)
    && Locking(s.workers)
    && (s.collector.Stopped? ==> s.results == [])
  }

  lemma {:induction false} InitialInvariant<J, R, S>(task: Task<J, R, S>, capacity: nat, workerCount: nat)
    requires workerCount > 0
    ensures Invariant(task, capacity, Initial(task, workerCount))
  {
    var s := Initial(task, workerCount);
    forall i: nat
      ensures InFlight(s, i) == 0
    {
      NothingHeld(s.workers, i);
    }
  }

  // ----- every action keeps the invariant -----

  lemma {:induction false} SendKeeps<J, R, S>(task: Task<J, R, S>, capacity: nat, s: State<J, R, S>, s': State<J, R, S>)
    requires Invariant(task, capacity, s)
    requires Apply(task, capacity, s, Send) == Some(s')
    ensures Invariant(task, capacity, s')
  {
    if AllGone(s.workers) {
      assert s.workers[0].Gone?;
    } else {
      var n := s.scheduler.next;
      forall i: nat
        ensures Places(s', i) == Places(s, i) + (if i == n then 1 else 0)
      {
        JobsAppend(s.jobs, Job(n, task.inputs[n]), i);
      }
    }
  }

  /** One worker changes, and the channel it talks to: where a job number goes. */
  lemma {:induction false} WorkerMoves<J, R, S>(s: State<J, R, S>, s': State<J, R, S>, w: nat, worker: Worker<J, R>,
                                                i: nat)
    requires w < |s.workers| && s'.workers == s.workers[w := worker]
    ensures InFlight(s', i) - JobCount(s'.jobs, i) - ReportCount(s'.results, i) - Holds(worker, i)
         == InFlight(s, i) - JobCount(s.jobs, i) - ReportCount(s.results, i) - Holds(s.workers[w], i)
  {
    WorkerChange(s.workers, w, worker, i);
  }

  lemma {:induction false} LockKeeps<J, R, S>(task: Task<J, R, S>, capacity: nat, s: State<J, R, S>,
                                              w: nat, s': State<J, R, S>)
    requires Invariant(task, capacity, s)
    requires Apply(task, capacity, s, Lock(w)) == Some(s')
    ensures Invariant(task, capacity, s')
  {
    forall i: nat
      ensures Places(s', i) == Places(s, i)
    {
      WorkerMoves(s, s', w, Waiting, i);
    }
  }

  lemma {:induction false} ReceiveKeeps<J, R, S>(task: Task<J, R, S>, capacity: nat, s: State<J, R, S>,
                                                 w: nat, s': State<J, R, S>)
    requires Invariant(task, capacity, s)
    requires Apply(task, capacity, s, Receive(w)) == Some(s')
    ensures Invariant(task, capacity, s')
  {
    forall i: nat
      ensures Places(s', i) == Places(s, i)
    {
      WorkerMoves(s, s', w, s'.workers[w], i);
    }
  }

  lemma {:induction false} WorkKeeps<J, R, S>(task: Task<J, R, S>, capacity: nat, s: State<J, R, S>,
                                              w: nat, s': State<J, R, S>)
    requires Invariant(task, capacity, s)
    requires Apply(task, capacity, s, Work(w)) == Some(s')
    ensures Invariant(task, capacity, s')
  {
    assert WorkerRight(task, s.workers[w]);
    forall i: nat
      ensures Places(s', i) == Places(s, i)
    {
      WorkerMoves(s, s', w, s'.workers[w], i);
    }
  }

  lemma {:induction false} VanishKeeps<J, R, S>(task: Task<J, R, S>, capacity: nat, s: State<J, R, S>,
                                                w: nat, s': State<J, R, S>)
    requires Invariant(task, capacity, s)
    requires Apply(task, capacity, s, Vanish(w)) == Some(s')
    ensures Invariant(task, capacity, s')
  {
    forall i: nat
      ensures Places(s', i) <= Places(s, i)
    {
      WorkerMoves(s, s', w, Gone, i);
    }
  }

  lemma {:induction false} DeliverKeeps<J, R, S>(task: Task<J, R, S>, capacity: nat, s: State<J, R, S>,
                                                 w: nat, s': State<J, R, S>)
    requires Invariant(task, capacity, s)
    requires Apply(task, capacity, s, Deliver(w)) == Some(s')
    ensures Invariant(task, capacity, s')
  {
    assert WorkerRight(task, s.workers[w]);
    if s.collector.Collecting? {
      forall i: nat
        ensures Places(s', i) == Places(s, i)
      {
        ReportsAppend(s.results, s.workers[w].report, i);
        WorkerMoves(s, s', w, Idle, i);
      }
    }
  }

  lemma {:induction false} FoldNext<J, R, S>(task: Task<J, R, S>, next: nat, pending: map<nat, R>, state: S)
    requires next <= |task.inputs| && Fold(task, next) == Some(state) && PendingRight(task, next, pending) && next in pending
    ensures next < |task.inputs| && Fold(task, next + 1) == task.sink(state, pending[next])
    ensures PendingRight(task, next + 1, pending - {next}) && |pending - {next}| < |pending|
  {
    assert (pending - {next}).Keys == pending.Keys - {next};
    assert |(pending - {next}).Keys| == |pending.Keys| - 1;
  }

  lemma {:induction false} DrainHandsOver<J, R, S>(task: Task<J, R, S>, next: nat, pending: map<nat, R>, state: S)
    requires next <= |task.inputs| && Fold(task, next) == Some(state)
    requires PendingRight(task, next, pending)
    ensures match Drain(task.sink, next, pending, state)
            case None => Fold(task, |task.inputs|).None?
            case Some((next', pending', state')) =>
              && next <= next' <= |task.inputs|
              && Fold(task, next') == Some(state')
              && PendingRight(task, next', pending') && next' !in pending'
    decreases |pending|
  {
    hide Drain, Fold, PendingRight;
    if next in pending {
      FoldNext(task, next, pending, state);
      DrainOne(task.sink, next, pending, state);
      if task.sink(state, pending[next]).Some? {
        DrainHandsOver(task, next + 1, pending - {next}, task.sink(state, pending[next]).value);
      } else if Fold(task, |task.inputs|).Some? {
        FoldPrefix(task, next + 1, |task.inputs|);
      }
    } else {
      DrainNothing(task.sink, next, pending, state);
    }
  }

  lemma {:induction false} DrainLosesNothing<R, S>(sink: (S, R) -> Option<S>, next: nat, pending: map<nat, R>, state: S)
    requires Drain(sink, next, pending, state).Some?
    requires forall i :: i in pending ==> next <= i
    ensures var (next', pending', _) := Drain(sink, next, pending, state).value;
            && next' + |pending'| == next + |pending|
            && forall i: nat :: Taken(next', pending', i) == Taken(next, pending, i)
    decreases |pending|
  {
    if next in pending {
      var rest := pending - {next};
      assert rest.Keys == pending.Keys - {next};
      assert |rest.Keys| == |pending.Keys| - 1;
      DrainLosesNothing(sink, next + 1, rest, sink(state, pending[next]).value);
      assert forall i: nat :: Taken(next + 1, rest, i) == Taken(next, pending, i);
    }
  }

  lemma {:induction false} FailedReport<J, R, S>(task: Task<J, R, S>, report: Report<R>)
    requires ReportRight(task, report) && report.Failed?
    ensures Fold(task, |task.inputs|).None?
  {
    if Fold(task, |task.inputs|).Some? {
      FoldPrefix(task, report.index, |task.inputs|);
    }
  }

  /** Taking a report that is new to the collector keeps its order, or the reference fails as well. */
  lemma {:induction false} TakeReportOrders<J, R, S>(task: Task<J, R, S>, c: Collector<R, S>, report: Report<R>)
    requires c.Collecting? && Ordered(task, c) && ReportRight(task, report)
    requires !Taken(c.next, c.pending, report.index)
    ensures var c' := TakeReport(task.sink, c, report);
            && Ordered(task, c')
            && (c'.Stopped? ==> c'.collected.None? && Fold(task, |task.inputs|).None?)
            && (c'.Collecting? ==> forall i: nat ::
                  Taken(c'.next, c'.pending, i) == (Taken(c.next, c.pending, i) || i == report.index))
  {
    if report.Failed? {
      FailedReport(task, report);
    } else {
      var pending := c.pending[report.index := report.value];
      assert pending.Keys == c.pending.Keys + {report.index};
      assert |pending.Keys| == |c.pending.Keys| + 1;
      assert PendingRight(task, c.next, pending);
      DrainHandsOver(task, c.next, pending, c.sink);
      if Drain(task.sink, c.next, pending, c.sink).Some? {
        DrainLosesNothing(task.sink, c.next, pending, c.sink);
        assert forall i: nat :: Taken(c.next, pending, i) == (Taken(c.next, c.pending, i) || i == report.index);
      }
    }
  }

  lemma {:induction false} CollectKeeps<J, R, S>(task: Task<J, R, S>, capacity: nat,
                                                 s: State<J, R, S>, s': State<J, R, S>)
    requires Invariant(task, capacity, s)
    requires Apply(task, capacity, s, Collect) == Some(s')
    ensures Invariant(task, capacity, s')
    ensures s'.collector.Stopped? ==> s'.collector.collected.None? && Fold(task, |task.inputs|).None?
  {
    var report, c := s.results[0], s.collector;
    assert InFlight(s, report.index) >= 1;
    assert Places(s, report.index) <= 1;
    TakeReportOrders(task, c, report);
    if s'.collector.Collecting? {
      forall i: nat
        ensures Places(s', i) == Places(s, i)
      {
        assert InFlight(s, i) == InFlight(s', i) + (if i == report.index then 1 else 0);
      }
    }
  }

  lemma {:induction false} EndCollectKeeps<J, R, S>(task: Task<J, R, S>, capacity: nat,
                                                    s: State<J, R, S>, s': State<J, R, S>)
    requires Invariant(task, capacity, s)
    requires Apply(task, capacity, s, EndCollect) == Some(s')
    ensures Invariant(task, capacity, s')
    ensures !s.panicked ==> s'.collector.collected.Some? && s'.collector.collected.value.0 == |task.inputs|
  {
    if !s.panicked {
      assert s.workers[0].Gone?;
      var c := s.collector;
      NothingHeld(s.workers, c.next);
      assert Places(s, c.next) == 0;
      assert c.next == |task.inputs|;
      assert c.pending.Keys == {};
    }
  }

  lemma {:induction false} ActionKeeps<J, R, S>(task: Task<J, R, S>, capacity: nat, s: State<J, R, S>,
                                                a: Action, s': State<J, R, S>)
    requires Invariant(task, capacity, s)
    requires Apply(task, capacity, s, a) == Some(s')
    ensures Invariant(task, capacity, s')
  {
    match a
    case Send => SendKeeps(task, capacity, s, s');
    case EndSchedule =>
      assert forall i: nat :: Places(s', i) == Places(s, i);
    case Lock(w) => LockKeeps(task, capacity, s, w, s');
    case Receive(w) => ReceiveKeeps(task, capacity, s, w, s');
    case Work(w) => WorkKeeps(task, capacity, s, w, s');
    case Vanish(w) => VanishKeeps(task, capacity, s, w, s');
    case Deliver(w) => DeliverKeeps(task, capacity, s, w, s');
    case Collect => CollectKeeps(task, capacity, s, s');
    case EndCollect => EndCollectKeeps(task, capacity, s, s');
  }

  lemma {:induction false} RunKeeps<J, R, S>(task: Task<J, R, S>, capacity: nat, s: State<J, R, S>,
                                             actions: seq<Action>)
    requires Invariant(task, capacity, s)
    requires Execute(task, capacity, s, actions).Some?
    ensures Invariant(task, capacity, Execute(task, capacity, s, actions).value)
    decreases |actions|
  {
    if actions != [] {
      var s' := Apply(task, capacity, s, actions[0]).value;
      ActionKeeps(task, capacity, s, actions[0], s');
      RunKeeps(task, capacity, s', actions[1..]);
    }
  }

  // ----- what a finished run returns -----

  /**
    No silent loss: whatever workers died on the way, a run whose two checks pass has handed every job's
    result over exactly once and in order, so it returns what the single thread would.
  */
  lemma {:induction false} NoSilentLoss<J, R, S>(task: Task<J, R, S>, capacity: nat, workerCount: nat,
                                                 actions: seq<Action>, s: State<J, R, S>)
    requires workerCount > 0
    requires Execute(task, capacity, Initial(task, workerCount), actions) == Some(s) && Over(s)
    ensures Checked(s).Some? ==> Sequential(task) == Checked(s)
  {
    InitialInvariant(task, capacity, workerCount);
    RunKeeps(task, capacity, Initial(task, workerCount), actions);
  }

  /** While no worker has died, the collector has stopped only for good reason, and the scheduler too. */
  ghost predicate Progressed<J, R, S>(task: Task<J, R, S>, s: State<J, R, S>) {
    !s.panicked ==>
      && (s.collector.Stopped? && s.collector.collected.None? ==> Fold(task, |task.inputs|).None?)
      && (s.collector.Stopped? && s.collector.collected.Some? ==>
            s.collector.collected.value.0 == |task.inputs| && s.scheduler.SchedulerDone?)
      && (s.scheduler.SchedulerDone? && s.scheduler.count.None? ==> Sequential(task).None?)
  }

  lemma {:induction false} ActionProgresses<J, R, S>(task: Task<J, R, S>, capacity: nat, s: State<J, R, S>,
                                                     a: Action, s': State<J, R, S>)
    requires Invariant(task, capacity, s) && Progressed(task, s)
    requires Apply(task, capacity, s, a) == Some(s')
    ensures Progressed(task, s')
  {
    match a
    case Send =>
      if AllGone(s.workers) {
        assert s.workers[0].Gone?;
      }
    case Collect => CollectKeeps(task, capacity, s, s');
    case EndCollect =>
      assert s.workers[0].Gone?;
      EndCollectKeeps(task, capacity, s, s');
    case _ =>
  }

  lemma {:induction false} RunProgresses<J, R, S>(task: Task<J, R, S>, capacity: nat, s: State<J, R, S>,
                                                  actions: seq<Action>)
    requires Invariant(task, capacity, s) && Progressed(task, s)
    requires Execute(task, capacity, s, actions).Some?
    ensures Progressed(task, Execute(task, capacity, s, actions).value)
    decreases |actions|
  {
    if actions != [] {
      var s' := Apply(task, capacity, s, actions[0]).value;
      ActionKeeps(task, capacity, s, actions[0], s');
      ActionProgresses(task, capacity, s, actions[0], s');
      RunProgresses(task, capacity, s', actions[1..]);
    }
  }

  /** Every schedule without a dying worker returns exactly what one thread returns. */
  lemma {:induction false} EveryScheduleAgrees<J, R, S>(task: Task<J, R, S>, capacity: nat, workerCount: nat,
                                                        actions: seq<Action>, s: State<J, R, S>)
    requires workerCount > 0
    requires Execute(task, capacity, Initial(task, workerCount), actions) == Some(s) && Over(s)
    requires !s.panicked
    ensures Outcome(s) == Sequential(task)
  {
    NoSilentLoss(task, capacity, workerCount, actions, s);
    InitialInvariant(task, capacity, workerCount);
    RunProgresses(task, capacity, Initial(task, workerCount), actions);
    RunKeeps(task, capacity, Initial(task, workerCount), actions);
  }

  // ----- no deadlock, no livelock -----

  /** In every reachable state some thread can go on (without anyone dying), unless all have returned. */
  lemma {:induction false} NeverStuck<J, R, S>(task: Task<J, R, S>, capacity: nat,
                                               s: State<J, R, S>) returns (a: Action)
    requires capacity > 0 && Invariant(task, capacity, s) && !Over(s)
    ensures !a.Vanish? && Apply(task, capacity, s, a).Some?
  {
    if w :| 0 <= w < |s.workers| && s.workers[w].Busy? {
      return Work(w);
    }
    if w :| 0 <= w < |s.workers| && s.workers[w].Reporting? {
      if s.collector.Collecting? && |s.results| > 0 {
        return Collect;
      }
      return Deliver(w);
    }
    if w :| 0 <= w < |s.workers| && s.workers[w].Waiting? {
      if |s.jobs| > 0 || s.scheduler.SchedulerDone? {
        return Receive(w);
      }
      return if s.scheduler.next < |task.inputs| then Send else EndSchedule;
    }
    if w :| 0 <= w < |s.workers| && s.workers[w].Idle? {
      return Lock(w);
    }
    assert AllGone(s.workers);
    if s.scheduler.Sending? {
      return if s.scheduler.next < |task.inputs| then Send else EndSchedule;
    }
    return if |s.results| > 0 then Collect else EndCollect;
  }

  function WorkerWeight<J, R>(worker: Worker<J, R>): nat {
    match worker
    case Idle => 2
    case Waiting => 1
    case Busy(_) => 5
    case Reporting(_) => 4
    case Gone => 0
  }

  function WorkersWeight<J, R>(workers: seq<Worker<J, R>>): nat {
    if workers == [] then 0 else WorkerWeight(workers[0]) + WorkersWeight(workers[1..])
  }

  lemma {:induction false} WeightChange<J, R>(workers: seq<Worker<J, R>>, w: nat, worker: Worker<J, R>)
    requires w < |workers|
    ensures WorkersWeight(workers[w := worker]) == WorkersWeight(workers) - WorkerWeight(workers[w]) + WorkerWeight(worker)
    decreases |workers|
  {
    var changed := workers[w := worker];
    if w == 0 {
      assert changed[1..] == workers[1..];
    } else {
      assert changed[1..] == workers[1..][w - 1 := worker];
      WeightChange(workers[1..], w - 1, worker);
    }
  }

  /** An upper bound on the number of actions still possible. */
  function Remaining<J, R, S>(task: Task<J, R, S>, s: State<J, R, S>): int {
    (match s.scheduler case Sending(next) => 1 + 7 * (|task.inputs| - next) case SchedulerDone(_) => 0)
    + 6 * |s.jobs| + WorkersWeight(s.workers) + |s.results|
    + (if s.collector.Collecting? then 1 else 0)
  }

  lemma {:induction false} WorkerActionShrinks<J, R, S>(task: Task<J, R, S>, capacity: nat, s: State<J, R, S>,
                                                        a: Action, s': State<J, R, S>)
    requires a.Lock? || a.Receive? || a.Work? || a.Vanish? || a.Deliver?
    requires Apply(task, capacity, s, a) == Some(s')
    ensures s'.scheduler == s.scheduler && Remaining(task, s') < Remaining(task, s)
  {
    hide AllGone, LockFree, Drain, TakeReport;
    WeightChange(s.workers, a.w, s'.workers[a.w]);
  }

  lemma {:induction false} ActionShrinks<J, R, S>(task: Task<J, R, S>, capacity: nat, s: State<J, R, S>,
                                                  a: Action, s': State<J, R, S>)
    requires s.scheduler.Sending? ==> s.scheduler.next <= |task.inputs|
    requires Apply(task, capacity, s, a) == Some(s')
    ensures 0 <= Remaining(task, s') < Remaining(task, s)
  {
    hide AllGone, LockFree, Drain, TakeReport;
    if a.Lock? || a.Receive? || a.Work? || a.Vanish? || a.Deliver? {
      WorkerActionShrinks(task, capacity, s, a, s');
    }
  }

  /** Every run is finite: no schedule is longer than the work it was given allows. */
  lemma {:induction false} RunsAreBounded<J, R, S>(task: Task<J, R, S>, capacity: nat, s: State<J, R, S>,
                                                   actions: seq<Action>)
    requires Invariant(task, capacity, s)
    requires Execute(task, capacity, s, actions).Some?
    ensures |actions| <= Remaining(task, s) - Remaining(task, Execute(task, capacity, s, actions).value)
    ensures Remaining(task, Execute(task, capacity, s, actions).value) >= 0
    decreases |actions|
  {
    if actions != [] {
      var s' := Apply(task, capacity, s, actions[0]).value;
      ActionKeeps(task, capacity, s, actions[0], s');
      ActionShrinks(task, capacity, s, actions[0], s');
      RunsAreBounded(task, capacity, s', actions[1..]);
    }
  }

  /**
    The pool's contract, for every interleaving and every number of workers: the run so far is no longer
    than its work allows; unless every thread has returned, some thread can go on; and once all have
    returned with none dead, the answer is the single-threaded one.
  */
  lemma {:induction false} EveryInterleaving<J, R, S>(task: Task<J, R, S>, capacity: nat, workerCount: nat,
                                                      actions: seq<Action>, s: State<J, R, S>)
    requires capacity > 0 && workerCount > 0
    requires Execute(task, capacity, Initial(task, workerCount), actions) == Some(s)
    ensures |actions| <= 2 + 7 * |task.inputs| + 2 * workerCount
    ensures !Over(s) ==> exists a: Action :: !a.Vanish? && Apply(task, capacity, s, a).Some?
    ensures Over(s) && !s.panicked ==> Outcome(s) == Sequential(task)
  {
    var start := Initial(task, workerCount);
    InitialInvariant(task, capacity, workerCount);
    InitialWeight(start.workers);
    RunKeeps(task, capacity, start, actions);
    RunsAreBounded(task, capacity, start, actions);
    if !Over(s) {
      var a := NeverStuck(task, capacity, s);
    } else if !s.panicked {
      EveryScheduleAgrees(task, capacity, workerCount, actions, s);
    }
  }

  lemma {:induction false} InitialWeight<J, R>(workers: seq<Worker<J, R>>)
    requires forall w :: 0 <= w < |workers| ==> workers[w].Idle?
    ensures WorkersWeight(workers) == 2 * |workers|
    decreases |workers|
  {
    if workers != [] {
      InitialWeight(workers[1..]);
    }
  }
}
