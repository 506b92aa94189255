/** A queue that hands its items to an asynchronous callback in batches. Between two await points the
    code runs without interruption; the interleavings are the sequences of those uninterrupted steps. */
module BatchQueue {
  import opened Wrappers

  /** What the queue holds, and the batches handed to the callback so far. */
  datatype QueueState<T> = QueueState(
    batchSize: int,
    queue: seq<T>,
    processingBatch: bool,
    started: seq<seq<T>>
  )

  /** How many items `splice(0, batchSize)` removes. */
  function SpliceCount(batchSize: int, length: nat): nat {
    if batchSize < 0 then 0 else if batchSize < length then batchSize else length
  }

  function Pushed<T>(q: QueueState<T>, item: T): QueueState<T> {
    q.(queue := q.queue + [item])
  }

  function BatchStarted<T>(q: QueueState<T>): QueueState<T> {
    var n := SpliceCount(q.batchSize, |q.queue|);
    q.(processingBatch := true, queue := q.queue[n..], started := q.started + [q.queue[..n]])
  }

  function BatchEnded<T>(q: QueueState<T>): QueueState<T> {
    q.(processingBatch := false)
  }

  /** The two loops that start batches: after a push, and to process what remains. */
  datatype Loop = CheckBatchSize | ProcessRemaining

  predicate LoopGoesOn<T>(q: QueueState<T>, loop: Loop) {
    match loop
    case CheckBatchSize => |q.queue| >= q.batchSize && !q.processingBatch
    case ProcessRemaining => |q.queue| > 0
  }

  // ---------- The class: one method for each uninterrupted stretch ----------

  class Batches<T> {
    var queue: seq<T>
    var processingBatch: bool
    const batchSize: int
    ghost var started: seq<seq<T>>

    ghost function State(): QueueState<T>
      reads this
    {
      QueueState(batchSize, queue, processingBatch, started)
    }

    constructor (batchSize: int)
      ensures State() == QueueState(batchSize, [], false, [])
    {
      this.batchSize := batchSize;
      queue, processingBatch, started := [], false, [];
    }

    /** Up to the callback's promise. */
    method ProcessBatch() returns (batch: seq<T>)
      modifies this
      ensures State() == BatchStarted(old(State())) && started == old(started) + [batch]
    {
      processingBatch := true;
      var n := SpliceCount(batchSize, |queue|);
      batch := queue[..n];
      queue := queue[n..];
      started := started + [batch];
    }

    /** The `finally` after the callback's promise settles, successfully or not. */
    method FinishBatch()
      modifies this
      ensures State() == BatchEnded(old(State()))
    {
      processingBatch := false;
    }

    /** One test of a loop, up to the callback of the batch it starts. */
    method TurnLoop(loop: Loop) returns (batch: Option<seq<T>>)
      modifies this
      ensures batch.Some? <==> LoopGoesOn(old(State()), loop)
      ensures State() == if LoopGoesOn(old(State()), loop) then BatchStarted(old(State())) else old(State())
      ensures batch.Some? ==> started == old(started) + [batch.value]
    {
      var goesOn := if loop == CheckBatchSize then |queue| >= batchSize && !processingBatch else |queue| > 0;
      batch := None;
      if goesOn {
        var next := ProcessBatch();
        batch := Some(next);
      }
    }

    method Push(item: T) returns (batch: Option<seq<T>>)
      modifies this
      ensures batch.Some? <==> LoopGoesOn(Pushed(old(State()), item), CheckBatchSize)
      ensures var pushed := Pushed(old(State()), item);
              State() == if LoopGoesOn(pushed, CheckBatchSize) then BatchStarted(pushed) else pushed
    {
      queue := queue + [item];
      batch := TurnLoop(CheckBatchSize);
    }
  }

  // ---------- Interleavings ----------

  /** A call that waits: for its batch's callback, or for its turn to test the loop again. */
  datatype Call = Call(loop: Loop, inCallback: bool)

  /** `pushed` records every item ever pushed, in order. */
  datatype System<T> = System(q: QueueState<T>, calls: map<nat, Call>, nextCall: nat, pushed: seq<T>)

  datatype Step<T> =
    | PushItem(item: T)
    | StartProcessRemaining
    | SettleCallback(call: nat, ok: bool)
    | Resume(call: nat)

  function Initial<T>(batchSize: int): System<T> {
    System(QueueState(batchSize, [], false, []), map[], 0, [])
  }

  function Turn<T>(s: System<T>, call: nat, loop: Loop): System<T> {
    if LoopGoesOn(s.q, loop) then s.(q := BatchStarted(s.q), calls := s.calls[call := Call(loop, true)])
    else s.(calls := s.calls - {call})
  }

  function Next<T>(s: System<T>, step: Step<T>): System<T> {
    match step
    case PushItem(item) =>
      Turn(s.(q := Pushed(s.q, item), pushed := s.pushed + [item], nextCall := s.nextCall + 1),
           s.nextCall, CheckBatchSize)
    case StartProcessRemaining => Turn(s.(nextCall := s.nextCall + 1), s.nextCall, ProcessRemaining)
    case SettleCallback(call, ok) =>
      if call !in s.calls || !s.calls[call].inCallback then s
      else
        s.(q := BatchEnded(s.q),
           calls := if ok then s.calls[call := s.calls[call].(inCallback := false)] else s.calls - {call})
    case Resume(call) =>
      if call !in s.calls || s.calls[call].inCallback then s else Turn(s, call, s.calls[call].loop)
  }

  function Run<T>(s: System<T>, steps: seq<Step<T>>): System<T> {
    if steps == [] then s else Next(Run(s, steps[..|steps| - 1]), steps[|steps| - 1])
  }

  // ---------- Nothing is lost, duplicated or reordered ----------

  function Flatten<T>(batches: seq<seq<T>>): seq<T> {
    if batches == [] then [] else Flatten(batches[..|batches| - 1]) + batches[|batches| - 1]
  }

  ghost predicate GoodBatches<T>(q: QueueState<T>) {
    forall batch :: batch in q.started ==> 0 < |batch| <= q.batchSize
  }

  ghost predicate Conserved<T>(s: System<T>) {
    Flatten(s.q.started) + s.q.queue == s.pushed
  }

  ghost predicate CallsAreOld<T>(s: System<T>) {
    forall call :: call in s.calls ==> call < s.nextCall
  }

  lemma NextKeepsCallsOld<T>(s: System<T>, step: Step<T>)
    requires CallsAreOld(s)
    ensures CallsAreOld(Next(s, step))
  {
    hide BatchStarted, LoopGoesOn;
  }

  /** Over any run, a call that starts never takes the place of one still waiting. */
  lemma {:induction false} CallsAreTheirOwn<T>(batchSize: int, steps: seq<Step<T>>)
    ensures var s := Run(Initial(batchSize), steps); CallsAreOld(s) && s.nextCall !in s.calls
  {
    if steps != [] {
      CallsAreTheirOwn(batchSize, steps[..|steps| - 1]);
      NextKeepsCallsOld(Run(Initial(batchSize), steps[..|steps| - 1]), steps[|steps| - 1]);
    }
  }

  lemma StartConserves<T>(q: QueueState<T>)
    ensures var next := BatchStarted(q); Flatten(next.started) + next.queue == Flatten(q.started) + q.queue
  {
    var n := SpliceCount(q.batchSize, |q.queue|);
    var next := BatchStarted(q);
    assert next.started[..|next.started| - 1] == q.started;
    assert q.queue == q.queue[..n] + q.queue[n..];
  }

  lemma NextConserves<T>(s: System<T>, step: Step<T>)
    requires Conserved(s)
    ensures Conserved(Next(s, step)) && Next(s, step).q.batchSize == s.q.batchSize
  {
    if step.PushItem? {
      var q := Pushed(s.q, step.item);
      StartConserves(q);
      assert Flatten(q.started) + q.queue == (Flatten(s.q.started) + s.q.queue) + [step.item];
    } else {
      StartConserves(s.q);
    }
  }

  lemma NextKeepsGoodBatches<T>(s: System<T>, step: Step<T>)
    requires s.q.batchSize >= 1 && GoodBatches(s.q)
    ensures GoodBatches(Next(s, step).q)
  {}

  /** Over every interleaving, the batches started so far followed by the queue are the pushed items in order. */
  lemma {:induction false} BatchesKeepOrder<T>(batchSize: int, steps: seq<Step<T>>)
    ensures Conserved(Run(Initial(batchSize), steps)) && Run(Initial(batchSize), steps).q.batchSize == batchSize
  {
    if steps != [] {
      BatchesKeepOrder(batchSize, steps[..|steps| - 1]);
      NextConserves(Run(Initial(batchSize), steps[..|steps| - 1]), steps[|steps| - 1]);
    }
  }

  /** Over every interleaving, every batch is non-empty and no longer than the batch size. */
  lemma {:induction false} BatchesAreBounded<T>(batchSize: int, steps: seq<Step<T>>)
    requires batchSize >= 1
    ensures GoodBatches(Run(Initial(batchSize), steps).q)
  {
    if steps != [] {
      BatchesAreBounded(batchSize, steps[..|steps| - 1]);
      BatchesKeepOrder(batchSize, steps[..|steps| - 1]);
      NextKeepsGoodBatches(Run(Initial(batchSize), steps[..|steps| - 1]), steps[|steps| - 1]);
    }
  }

  // ---------- Runs of pushes only ----------

  ghost predicate PushOnly<T>(steps: seq<Step<T>>) {
    forall step :: step in steps ==> !step.StartProcessRemaining?
  }

  ghost predicate FailureFree<T>(steps: seq<Step<T>>) {
    forall step :: step in steps ==> step.SettleCallback? ==> step.ok
  }

  ghost predicate InFlight<T>(s: System<T>, call: nat) {
    call in s.calls && s.calls[call].inCallback
  }

  ghost predicate WaitingToResume<T>(s: System<T>, call: nat) {
    call in s.calls && !s.calls[call].inCallback
  }

  /** The flag says whether the one batch in flight is there, and batches are full. */
  ghost predicate OneAtATime<T>(s: System<T>) {
    && (forall call :: call in s.calls ==> call < s.nextCall && s.calls[call].loop == CheckBatchSize)
    && (s.q.processingBatch <==> exists call :: InFlight(s, call))
    && (forall call, other :: InFlight(s, call) && InFlight(s, other) ==> call == other)
    && (forall batch :: batch in s.q.started ==> |batch| == s.q.batchSize)
  }

  /** A full queue is being worked on, or some call is about to test the loop again. */
  ghost predicate WorkIsPending<T>(s: System<T>) {
    |s.q.queue| >= s.q.batchSize ==> s.q.processingBatch || exists call :: WaitingToResume(s, call)
  }

  lemma TurnKeepsOneAtATime<T>(s: System<T>, call: nat)
    requires s.q.batchSize >= 1 && call < s.nextCall && !InFlight(s, call)
    requires OneAtATime(s)
    ensures OneAtATime(Turn(s, call, CheckBatchSize))
  {
    var next := Turn(s, call, CheckBatchSize);
    if LoopGoesOn(s.q, CheckBatchSize) {
      assert InFlight(next, call);
      forall other ensures InFlight(next, other) ==> other == call { assert !InFlight(s, other); }
    } else {
      forall other ensures InFlight(next, other) <==> InFlight(s, other) {}
    }
  }

  lemma NextKeepsOneAtATime<T>(s: System<T>, step: Step<T>)
    requires s.q.batchSize >= 1 && !step.StartProcessRemaining?
    requires OneAtATime(s)
    ensures OneAtATime(Next(s, step))
  {
    match step {
      case PushItem(item) =>
        var pushed := s.(q := Pushed(s.q, item), pushed := s.pushed + [item], nextCall := s.nextCall + 1);
        forall other ensures InFlight(pushed, other) <==> InFlight(s, other) {}
        TurnKeepsOneAtATime(pushed, s.nextCall);
      case SettleCallback(call, ok) =>
        if InFlight(s, call) {
          forall other ensures !InFlight(Next(s, step), other) {
            assert InFlight(s, other) ==> other == call;
          }
        }
      case Resume(call) =>
        if WaitingToResume(s, call) { TurnKeepsOneAtATime(s, call); }
    }
  }

  lemma NextKeepsWorkPending<T>(s: System<T>, step: Step<T>)
    requires s.q.batchSize >= 1 && !step.StartProcessRemaining? && (step.SettleCallback? ==> step.ok)
    requires OneAtATime(s) && WorkIsPending(s)
    ensures WorkIsPending(Next(s, step))
  {
    var next := Next(s, step);
    match step {
      case PushItem(item) =>
        if exists call :: WaitingToResume(s, call) {
          var call :| WaitingToResume(s, call);
          assert WaitingToResume(next, call);
        }
      case SettleCallback(call, ok) =>
        if InFlight(s, call) { assert WaitingToResume(next, call); }
      case Resume(call) =>
    }
  }

  lemma {:induction false} PushOnlyRuns<T>(batchSize: int, steps: seq<Step<T>>)
    requires batchSize >= 1 && PushOnly(steps)
    ensures OneAtATime(Run(Initial(batchSize), steps))
    ensures FailureFree(steps) ==> WorkIsPending(Run(Initial(batchSize), steps))
  {
    if steps != [] {
      var front, last := steps[..|steps| - 1], steps[|steps| - 1];
      assert last in steps;
      PushOnlyRuns(batchSize, front);
      BatchesKeepOrder(batchSize, front);
      NextKeepsOneAtATime(Run(Initial(batchSize), front), last);
      if FailureFree(steps) { NextKeepsWorkPending(Run(Initial(batchSize), front), last); }
    }
  }

  /** In push-only runs at most one batch is in flight and every batch is full. */
  lemma OneFullBatchAtATime<T>(batchSize: int, steps: seq<Step<T>>)
    requires batchSize >= 1 && PushOnly(steps)
    ensures var s := Run(Initial(batchSize), steps);
            && (forall call, other :: InFlight(s, call) && InFlight(s, other) ==> call == other)
            && (forall batch :: batch in s.q.started ==> |batch| == batchSize)
  {
    PushOnlyRuns(batchSize, steps);
    BatchesKeepOrder(batchSize, steps);
  }

  /** When nothing is left to do in a push-only run without failures, the queue is shorter than a batch. */
  lemma QuiescentQueueIsShort<T>(batchSize: int, steps: seq<Step<T>>)
    requires batchSize >= 1 && PushOnly(steps) && FailureFree(steps)
    requires Run(Initial(batchSize), steps).calls == map[]
    ensures |Run(Initial(batchSize), steps).q.queue| < batchSize
  {
    PushOnlyRuns(batchSize, steps);
    BatchesKeepOrder(batchSize, steps);
  }

  /** The only remaining call waits for its batch while a full batch is queued. */
  ghost predicate WorksOnLastFullBatch<T>(s: System<T>, call: nat) {
    InFlight(s, call) && s.calls.Keys == {call} && |s.q.queue| >= s.q.batchSize
  }

  /** Step `i` fails the callback of the only remaining call while a full batch is queued, and nothing is
      pushed afterwards. */
  ghost predicate AbandonsQueue<T>(batchSize: int, steps: seq<Step<T>>, i: nat) {
    && i < |steps| && steps[i].SettleCallback? && !steps[i].ok
    && WorksOnLastFullBatch(Run(Initial(batchSize), steps[..i]), steps[i].call)
    && forall k :: i < k < |steps| ==> !steps[k].PushItem?
  }

  /** At rest nothing changes until the next push. */
  lemma {:induction false} RestLastsUntilPush<T>(batchSize: int, steps: seq<Step<T>>, i: nat)
    requires i <= |steps| && PushOnly(steps) && forall k :: i <= k < |steps| ==> !steps[k].PushItem?
    requires Run(Initial(batchSize), steps[..i]).calls == map[]
    ensures Run(Initial(batchSize), steps) == Run(Initial(batchSize), steps[..i])
  {
    if i == |steps| {
      assert steps[..i] == steps;
    } else {
      var front := steps[..|steps| - 1];
      assert front[..i] == steps[..i] && steps[|steps| - 1] in steps;
      RestLastsUntilPush(batchSize, front, i);
    }
  }

  lemma SuccessKeepsTheCall<T>(s: System<T>, call: nat)
    requires InFlight(s, call)
    ensures call in Next(s, SettleCallback(call, true)).calls.Keys
  {}

  /** Where a step brings a push-only run to rest with a full queue, it fails the last callback. */
  lemma RestsFullBy<T>(s: System<T>, step: Step<T>)
    requires s.q.batchSize >= 1 && !step.StartProcessRemaining? && OneAtATime(s) && OneAtATime(Next(s, step))
    requires Next(s, step).calls == map[] && |Next(s, step).q.queue| >= s.q.batchSize
    ensures (Next(s, step) == s && !step.PushItem?)
            || (step.SettleCallback? && !step.ok && WorksOnLastFullBatch(s, step.call))
  {
    var next := Next(s, step);
    forall call ensures !InFlight(next, call) {}
    if step.SettleCallback? && InFlight(s, step.call) {
      SuccessKeepsTheCall(s, step.call);
      forall call | call in s.calls ensures call == step.call { assert call != step.call ==> call in next.calls; }
    }
  }

  lemma AbandonedRestsFull<T>(batchSize: int, steps: seq<Step<T>>, i: nat)
    requires PushOnly(steps) && AbandonsQueue(batchSize, steps, i)
    ensures Run(Initial(batchSize), steps).calls == map[] && |Run(Initial(batchSize), steps).q.queue| >= batchSize
  {
    var before := Run(Initial(batchSize), steps[..i]);
    BatchesKeepOrder(batchSize, steps[..i]);
    assert steps[..i + 1][..i] == steps[..i];
    assert Run(Initial(batchSize), steps[..i + 1]) == Next(before, steps[i]);
    assert Next(before, steps[i]).calls == map[];
    RestLastsUntilPush(batchSize, steps, i + 1);
  }

  lemma {:induction false} RestsFullIsAbandoned<T>(batchSize: int, steps: seq<Step<T>>) returns (i: nat)
    requires batchSize >= 1 && PushOnly(steps)
    requires Run(Initial(batchSize), steps).calls == map[] && |Run(Initial(batchSize), steps).q.queue| >= batchSize
    ensures AbandonsQueue(batchSize, steps, i)
  {
    hide Next, OneAtATime, WorksOnLastFullBatch, WorkIsPending;
    var n := |steps| - 1;
    var front, last := steps[..n], steps[n];
    var s := Run(Initial(batchSize), front);
    assert last in steps && Run(Initial(batchSize), steps) == Next(s, last);
    PushOnlyRuns(batchSize, front);
    PushOnlyRuns(batchSize, steps);
    BatchesKeepOrder(batchSize, front);
    RestsFullBy(s, last);
    if last.SettleCallback? && !last.ok && WorksOnLastFullBatch(s, last.call) {
      i := n;
    } else {
      i := RestsFullIsAbandoned(batchSize, front);
      assert front[..i] == steps[..i];
    }
  }

  /** A push-only run comes to rest with a full queue exactly when it was abandoned: the callback of its last call
      failed while a full batch was queued, and nothing was pushed since. */
  lemma RestsFullExactly<T>(batchSize: int, steps: seq<Step<T>>)
    requires batchSize >= 1 && PushOnly(steps)
    ensures var s := Run(Initial(batchSize), steps);
            s.calls == map[] && |s.q.queue| >= batchSize <==> exists i: nat :: AbandonsQueue(batchSize, steps, i)
  {
    hide Run, AbandonsQueue;
    var s := Run(Initial(batchSize), steps);
    if i: nat :| AbandonsQueue(batchSize, steps, i) { AbandonedRestsFull(batchSize, steps, i); }
    if s.calls == map[] && |s.q.queue| >= batchSize { var i := RestsFullIsAbandoned(batchSize, steps); }
  }

  /** A failed callback can leave a full queue with no call working on it. */
  lemma FailureLeavesFullQueue()
    ensures var s := Run(Initial(1), [PushItem(7), PushItem(8), SettleCallback(0, false)]);
            s.calls == map[] && s.q.queue == [8]
  {
    var one := Next(Initial(1), PushItem(7));
    var two := Next(one, PushItem(8));
    assert [PushItem(7)][..0] == [];
    assert [PushItem(7), PushItem(8)][..1] == [PushItem(7)];
    assert [PushItem(7), PushItem(8), SettleCallback(0, false)][..2] == [PushItem(7), PushItem(8)];
    assert Run(Initial(1), [PushItem(7), PushItem(8)]) == two;
  }
}
