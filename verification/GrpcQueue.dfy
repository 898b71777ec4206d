/** The completion-queue bridge of grpc_queue.cc: a worker thread hands completions to the
    nginx main thread. Every step between two lock operations is one transition, and the two
    threads interleave freely. */
module GrpcQueue {

  datatype Finalizer = Finalizer(callback: nat, success: bool)

  /** Where the worker thread is: in Next, or past the lock with a notification to post. */
  datatype Worker = Waiting | AboutToNotify

  /** Where the main thread is: in the event loop, woken but not yet in the lock, or running
      the callbacks of the batch it took. */
  datatype MainThread = EventLoop | AboutToDrain | Draining(batch: seq<Finalizer>)

  /** wakeups counts posted notifications; completed and executed are the histories of what the
      worker took from the completion queue and of what the main thread ran. */
  datatype State = State(
    pending: seq<Finalizer>,
    notified: bool,
    worker: Worker,
    wakeups: nat,
    main: MainThread,
    completed: seq<Finalizer>,
    executed: seq<Finalizer>)

  const INITIAL := State([], false, Waiting, 0, EventLoop, [], [])

  datatype Step =
    | Complete(item: Finalizer) // the worker takes a completion and appends it under the lock
    | CompleteNull              // a completion without a tag is skipped
    | Notify                    // the worker calls ngx_notify
    | Wake                      // the event loop calls NginxTagHandler
    | Swap                      // DrainPending takes the batch under the lock
    | RunCallback
    | EndDrain

  predicate Enabled(s: State, step: Step) {
    match step
    case Complete(_) => s.worker.Waiting?
    case CompleteNull => s.worker.Waiting?
    case Notify => s.worker.AboutToNotify?
    case Wake => s.main.EventLoop? && s.wakeups > 0
    case Swap => s.main.AboutToDrain?
    case RunCallback => s.main.Draining? && s.main.batch != []
    case EndDrain => s.main.Draining? && s.main.batch == []
  }

  function Apply(s: State, step: Step): State
    requires Enabled(s, step)
  {
    match step
    case Complete(item) =>
      s.(pending := s.pending + [item], completed := s.completed + [item],
         notified := true, worker := if s.notified then Waiting else AboutToNotify)
    case CompleteNull => s
    case Notify => s.(wakeups := s.wakeups + 1, worker := Waiting)
    case Wake => s.(wakeups := s.wakeups - 1, main := AboutToDrain)
    case Swap => s.(pending := [], notified := false, main := Draining(s.pending))
    case RunCallback =>
      s.(executed := s.executed + [s.main.batch[0]], main := Draining(s.main.batch[1..]))
    case EndDrain => s.(main := EventLoop)
  }

  function Batch(s: State): seq<Finalizer> {
    if s.main.Draining? then s.main.batch else []
  }

  /** Wake-ups on their way: about to be posted, posted, or about to drain. */
  function InFlight(s: State): nat {
    (if s.worker.AboutToNotify? then 1 else 0) + s.wakeups + (if s.main.AboutToDrain? then 1 else 0)
  }

  ghost predicate Inv(s: State) {
    && s.completed == s.executed + Batch(s) + s.pending
    && InFlight(s) == (if s.notified then 1 else 0)
    && (s.pending != [] ==> s.notified)
  }

  lemma InvKept(s: State, step: Step)
    requires Inv(s) && Enabled(s, step)
    ensures Inv(Apply(s, step))
  {
    match step
    case Complete(item) =>
      assert s.executed + Batch(s) + (s.pending + [item]) == s.executed + Batch(s) + s.pending + [item];
    case RunCallback =>
      assert s.executed + Batch(s) == s.executed + [s.main.batch[0]] + s.main.batch[1..];
    case _ =>
  }

  // ---------- runs

  predicate Legal(s: State, steps: seq<Step>)
    decreases |steps|
  {
    steps == [] || (Enabled(s, steps[0]) && Legal(Apply(s, steps[0]), steps[1..]))
  }

  function Run(s: State, steps: seq<Step>): State
    requires Legal(s, steps)
    decreases |steps|
  {
    if steps == [] then s else Run(Apply(s, steps[0]), steps[1..])
  }

  lemma {:induction false} InvOverRun(s: State, steps: seq<Step>)
    requires Inv(s) && Legal(s, steps)
    ensures Inv(Run(s, steps))
    decreases |steps|
  {
    if steps != [] {
      InvKept(s, steps[0]);
      InvOverRun(Apply(s, steps[0]), steps[1..]);
    }
  }

  /** In every interleaving: callbacks run once each in completion order, what has not run yet
      is the batch followed by pending, and a non-empty pending has exactly one wake-up on its
      way. */
  lemma BridgeIsFifo(steps: seq<Step>)
    requires Legal(INITIAL, steps)
    ensures var s := Run(INITIAL, steps);
            && s.completed == s.executed + Batch(s) + s.pending
            && (s.notified <==> InFlight(s) == 1) && InFlight(s) <= 1
            && (s.pending != [] ==> InFlight(s) == 1)
  {
    InvOverRun(INITIAL, steps);
  }

  // ---------- progress

  /** The steps that hand over work; Complete and CompleteNull bring new events. */
  predicate Internal(step: Step) {
    !step.Complete? && !step.CompleteNull?
  }

  /** The internal steps still to be made. */
  function Work(s: State): nat {
    (if s.worker.AboutToNotify? then 4 else 0) + 3 * s.wakeups + 2 * |s.pending|
    + (match s.main case EventLoop => 0 case AboutToDrain => 2 case Draining(batch) => 1 + |batch|)
  }

  lemma InternalStepsReduceWork(s: State, step: Step)
    requires Enabled(s, step) && Internal(step)
    ensures Work(Apply(s, step)) < Work(s)
  {
  }

  /** When no internal step is left, everything completed has run. */
  lemma QuiescentIsDone(s: State)
    requires Inv(s)
    requires !Enabled(s, Notify) && !Enabled(s, Wake) && !Enabled(s, Swap)
             && !Enabled(s, RunCallback) && !Enabled(s, EndDrain)
    ensures s.executed == s.completed
  {
    assert s.executed + [] + [] == s.executed;
  }

  /** Once completions stop, any run of internal steps is bounded, and one that cannot go on has
      run every callback. */
  lemma {:induction false} EverythingRuns(s: State, steps: seq<Step>)
    requires Inv(s) && Legal(s, steps)
    requires forall i :: 0 <= i < |steps| ==> Internal(steps[i])
    ensures |steps| <= Work(s)
    ensures (forall step :: Internal(step) ==> !Enabled(Run(s, steps), step)) ==>
              Run(s, steps).executed == s.completed
    decreases |steps|
  {
    if steps == [] {
      if forall step :: Internal(step) ==> !Enabled(s, step) {
        assert forall step :: step in {Notify, Wake, Swap, RunCallback, EndDrain} ==> Internal(step);
        assert !Enabled(s, Notify) && !Enabled(s, Wake) && !Enabled(s, Swap);
        assert !Enabled(s, RunCallback) && !Enabled(s, EndDrain);
        QuiescentIsDone(s);
      }
    } else {
      InternalStepsReduceWork(s, steps[0]);
      InvKept(s, steps[0]);
      EverythingRuns(Apply(s, steps[0]), steps[1..]);
    }
  }
}
