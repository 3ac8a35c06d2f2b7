/**
  The chat server's file-transfer queue: any number of client threads insert requests into a ring guarded
  by two counting semaphores and a mutex, one processor thread removes them, and a shutdown posts one extra
  token to release the processor. A step is one semaphore operation, one lock section or one flag access.
 */
module FileQueue {
  import opened Rings
  import opened Sums

  datatype ProducerPc<T> =
    | Idle
    | Trying(req: T)      // about to try the empty-slots semaphore
    | Waiting(req: T)     // in the timed wait for an empty slot
    | Reserved(req: T)    // holds a slot: about to insert under the lock
    | Inserted            // about to post the filled-slots semaphore

  datatype ConsumerPc<T> =
    | Looping             // about to test the running flag at the loop head
    | AwaitingItem        // in the wait on filled slots
    | Acquired            // holds a token: about to re-test the running flag
    | Cleared             // saw the flag set: about to remove under the lock
    | Removed(req: T)     // about to post the empty-slots semaphore
    | Processing(req: T)
    | Stopped

  datatype MainPc = Serving | Stopping | Posted

  /** `inserted` and `processed` are history. */
  datatype Queue<T> = Queue(
    ring: Ring<T>, empty: nat, filled: nat, running: bool,
    producers: seq<ProducerPc<T>>, consumer: ConsumerPc<T>, main: MainPc,
    inserted: seq<T>, processed: seq<T>)

  datatype Step<T> =
    | Request(p: nat, req: T)
    | TryReserve(p: nat)
    | WaitReserve(p: nat)
    | TimeOut(p: nat)
    | Insert(p: nat)
    | PostFilled(p: nat)
    | TestLoop
    | TakeToken
    | TestAgain
    | Remove
    | PostEmpty
    | Process
    | Signal              // the interrupt handler clears the running flag
    | ShutdownPost        // the shutdown posts one extra filled token

  ghost predicate Initial<T>(q: Queue<T>) {
    && q.ring.Valid() && q.ring.size == 0
    && q.empty == q.ring.Capacity() && q.filled == 0 && q.running
    && (forall i :: 0 <= i < |q.producers| ==> q.producers[i] == Idle)
    && q.consumer == Looping && q.main == Serving
    && q.inserted == [] && q.processed == []
  }

  predicate Enabled<T>(q: Queue<T>, step: Step<T>) {
    match step
    case Request(p, _) => p < |q.producers| && q.producers[p].Idle?
    case TryReserve(p) => p < |q.producers| && q.producers[p].Trying?
    case WaitReserve(p) => p < |q.producers| && q.producers[p].Waiting? && q.empty > 0
    case TimeOut(p) => p < |q.producers| && q.producers[p].Waiting?
    case Insert(p) => p < |q.producers| && q.producers[p].Reserved?
    case PostFilled(p) => p < |q.producers| && q.producers[p].Inserted?
    case TestLoop => q.consumer.Looping?
    case TakeToken => q.consumer.AwaitingItem? && q.filled > 0
    case TestAgain => q.consumer.Acquired?
    case Remove => q.consumer.Cleared?
    case PostEmpty => q.consumer.Removed?
    case Process => q.consumer.Processing?
    case Signal => q.main.Serving?
    case ShutdownPost => q.main.Stopping?
  }

  /** A removal from an empty ring would underflow the size; Safe says that never happens. */
  ghost predicate Safe<T>(q: Queue<T>, step: Step<T>) {
    && (step.Remove? ==> q.ring.Valid() && q.ring.size > 0)
    && (step.Insert? ==> q.ring.Valid() && q.ring.size < q.ring.Capacity())
  }

  ghost function Apply<T>(q: Queue<T>, step: Step<T>): Queue<T>
    requires Enabled(q, step) && Safe(q, step)
  {
    match step
    case Request(p, req) => q.(producers := q.producers[p := Trying(req)])
    case TryReserve(p) =>
      if q.empty > 0 then q.(empty := q.empty - 1, producers := q.producers[p := Reserved(q.producers[p].req)])
      else q.(producers := q.producers[p := Waiting(q.producers[p].req)])
    case WaitReserve(p) => q.(empty := q.empty - 1, producers := q.producers[p := Reserved(q.producers[p].req)])
    case TimeOut(p) => q.(producers := q.producers[p := Idle])
    case Insert(p) =>
      var req := q.producers[p].req;
      q.(ring := q.ring.Push(req), inserted := q.inserted + [req], producers := q.producers[p := Inserted])
    case PostFilled(p) => q.(filled := q.filled + 1, producers := q.producers[p := Idle])
    case TestLoop => q.(consumer := if q.running then AwaitingItem else Stopped)
    case TakeToken => q.(filled := q.filled - 1, consumer := Acquired)
    case TestAgain => q.(consumer := if q.running then Cleared else Stopped)
    case Remove => q.(ring := q.ring.Pop(), consumer := Removed(q.ring.First()))
    case PostEmpty => q.(empty := q.empty + 1, consumer := Processing(q.consumer.req))
    case Process => q.(processed := q.processed + [q.consumer.req], consumer := Looping)
    case Signal => q.(running := false, main := Stopping)
    case ShutdownPost => q.(filled := q.filled + 1, main := Posted)
  }

  // ---------------------------------------------------------------- invariant

  function IsReserved<T>(p: ProducerPc<T>): int { if p.Reserved? then 1 else 0 }
  function IsInserted<T>(p: ProducerPc<T>): int { if p.Inserted? then 1 else 0 }

  function Held<T>(c: ConsumerPc<T>): seq<T> {
    if c.Removed? || c.Processing? then [c.req] else []
  }

  /** Every slot is free, reserved, filled, or just emptied and not yet posted. */
  ghost predicate SlotsConserved<T>(q: Queue<T>) {
    q.empty + q.ring.size + Sum(q.producers, IsReserved) + (if q.consumer.Removed? then 1 else 0) == q.ring.Capacity()
  }

  /** Every queued request has a token, posted or about to be, apart from the extra one of the shutdown. */
  ghost predicate TokensConserved<T>(q: Queue<T>) {
    !q.consumer.Stopped? ==>
      q.ring.size + (if q.main.Posted? then 1 else 0)
      == q.filled + Sum(q.producers, IsInserted) + (if q.consumer.Acquired? || q.consumer.Cleared? then 1 else 0)
  }

  ghost predicate Inv<T>(q: Queue<T>) {
    && q.ring.Valid()
    && SlotsConserved(q) && TokensConserved(q)
    && (q.running <==> q.main.Serving?)
    && (q.consumer.Cleared? ==> q.ring.size > 0)
    && (q.consumer.Stopped? ==> !q.running)
    && q.processed + Held(q.consumer) + q.ring.Items() == q.inserted
  }

  lemma InitialHasInv<T>(q: Queue<T>)
    requires Initial(q)
    ensures Inv(q)
  {
    SumZero(q.producers, IsReserved);
    SumZero(q.producers, IsInserted);
  }

  /** No enabled insertion overwrites a queued request, and no enabled removal finds the ring empty. */
  lemma EnabledIsSafe<T>(q: Queue<T>, step: Step<T>)
    requires Inv(q) && Enabled(q, step)
    ensures Safe(q, step)
  {
    if step.Insert? { SumNonNegative(q.producers, IsReserved, step.p); }
  }

  lemma ProducerCounts<T>(q: Queue<T>, p: nat, pc: ProducerPc<T>)
    requires p < |q.producers|
    ensures Sum(q.producers[p := pc], IsReserved) == Sum(q.producers, IsReserved) - IsReserved(q.producers[p]) + IsReserved(pc)
    ensures Sum(q.producers[p := pc], IsInserted) == Sum(q.producers, IsInserted) - IsInserted(q.producers[p]) + IsInserted(pc)
  {
    SumUpdate(q.producers, p, pc, IsReserved);
    SumUpdate(q.producers, p, pc, IsInserted);
  }

  lemma ProducerStepKeepsInv<T>(q: Queue<T>, step: Step<T>)
    requires Inv(q) && Enabled(q, step) && Safe(q, step)
    requires step.Request? || step.TryReserve? || step.WaitReserve? || step.TimeOut? || step.Insert? || step.PostFilled?
    ensures Inv(Apply(q, step))
  {
    var q' := Apply(q, step);
    ProducerCounts(q, step.p, q'.producers[step.p]);
    if step.Insert? {
      var req := q.producers[step.p].req;
      PushAppends(q.ring, req);
      assert q.processed + Held(q.consumer) + (q.ring.Items() + [req]) == q.inserted + [req];
    }
  }

  /** Every step of every thread keeps the invariant, the shutdown's extra token included. */
  lemma StepKeepsInv<T>(q: Queue<T>, step: Step<T>)
    requires Inv(q) && Enabled(q, step)
    ensures Safe(q, step) && Inv(Apply(q, step))
  {
    EnabledIsSafe(q, step);
    match step {
      case TestLoop =>
      case TakeToken =>
      case TestAgain => SumNonNegative(q.producers, IsInserted, 0);
      case Remove =>
        PopTakesOldest(q.ring);
        assert q.processed + [q.ring.First()] + q.ring.Pop().Items()
            == q.processed + ([q.ring.First()] + q.ring.Pop().Items());
        assert q.processed + [] + q.ring.Items() == q.processed + q.ring.Items();
      case PostEmpty =>
      case Process =>
        assert q.processed + [q.consumer.req] + [] == q.processed + [q.consumer.req];
      case Signal =>
      case ShutdownPost =>
      case _ => ProducerStepKeepsInv(q, step);
    }
  }

  // ---------------------------------------------------------------- whole runs

  ghost predicate StepsTo<T>(q: Queue<T>, step: Step<T>, q': Queue<T>) {
    Enabled(q, step) && Safe(q, step) && q' == Apply(q, step)
  }

  ghost predicate IsRun<T>(states: seq<Queue<T>>, steps: seq<Step<T>>) {
    && |states| == |steps| + 1 && Initial(states[0])
    && forall k :: 0 <= k < |steps| ==> StepsTo(states[k], steps[k], states[k + 1])
  }

  lemma {:induction false} EveryReachableState<T>(states: seq<Queue<T>>, steps: seq<Step<T>>, k: nat)
    requires IsRun(states, steps) && k < |states|
    ensures Inv(states[k])
  {
    if k == 0 {
      InitialHasInv(states[0]);
    } else {
      EveryReachableState(states, steps, k - 1);
      assert StepsTo(states[k - 1], steps[k - 1], states[k]);
      StepKeepsInv(states[k - 1], steps[k - 1]);
    }
  }

  /** In every interleaving, requests are processed in insertion order, each at most once. */
  lemma ProcessedInInsertionOrder<T>(states: seq<Queue<T>>, steps: seq<Step<T>>, k: nat)
    requires IsRun(states, steps) && k < |states|
    ensures states[k].processed <= states[k].inserted
    ensures states[k].ring.size <= states[k].ring.Capacity()
    ensures forall step :: Enabled(states[k], step) ==> Safe(states[k], step)
  {
    EveryReachableState(states, steps, k);
    var q := states[k];
    assert q.processed + (Held(q.consumer) + q.ring.Items()) == q.inserted;
    forall step | Enabled(q, step) ensures Safe(q, step) { EnabledIsSafe(q, step); }
  }

  /** Steps the environment chooses: a new request, a timeout, the interrupt. */
  predicate External<T>(step: Step<T>) {
    step.Request? || step.TimeOut? || step.Signal?
  }

  ghost predicate Quiet<T>(q: Queue<T>) {
    && (forall i :: 0 <= i < |q.producers| ==> q.producers[i].Idle?)
    && q.consumer.AwaitingItem? && q.ring.size == 0 && q.filled == 0
    && q.empty == q.ring.Capacity() && q.processed == q.inserted
  }

  /** While the server runs, some thread can step on its own unless everything inserted has been processed. */
  lemma NoDeadlockWhileRunning<T>(q: Queue<T>) returns (step: Step<T>)
    requires Inv(q) && q.running && !Quiet(q)
    ensures Enabled(q, step) && !External(step)
  {
    if !q.consumer.AwaitingItem? {
      return match q.consumer
             case Looping => TestLoop case Acquired => TestAgain case Cleared => Remove
             case Removed(_) => PostEmpty case _ => Process;
    }
    if q.filled > 0 { return TakeToken; }
    if i: nat :| i < |q.producers| && !q.producers[i].Idle? && !q.producers[i].Waiting? {
      return match q.producers[i] case Trying(_) => TryReserve(i) case Reserved(_) => Insert(i) case _ => PostFilled(i);
    }
    SumZero(q.producers, IsReserved);
    SumZero(q.producers, IsInserted);
    assert q.ring.Items() == [] && q.processed + [] + [] == q.processed;
    var i: nat :| i < |q.producers| && !q.producers[i].Idle?;
    return WaitReserve(i);
  }

  // ---------------------------------------------------------------- bounded work

  function ProducerRank<T>(p: ProducerPc<T>): int {
    match p case Idle => 0 case Inserted => 3 case Reserved(_) => 8 case Waiting(_) => 9 case Trying(_) => 10
  }

  function ConsumerRank<T>(c: ConsumerPc<T>): nat {
    match c
    case Stopped => 0 case AwaitingItem => 1 case Cleared => 1 case Acquired => 2
    case Looping => 2 case Processing(_) => 3 case Removed(_) => 4
  }

  function MainRank(m: MainPc): nat { match m case Posted => 0 case Stopping => 3 case Serving => 4 }

  ghost function Rank<T>(q: Queue<T>): (r: nat) {
    SumNonNegative(q.producers, ProducerRank, 0);
    Sum(q.producers, ProducerRank) + 4 * q.ring.size + 2 * q.filled + ConsumerRank(q.consumer) + MainRank(q.main)
  }

  /** Every step lowers the rank, except that a new request raises it by ten. */
  lemma StepRank<T>(q: Queue<T>, step: Step<T>)
    requires Inv(q) && Enabled(q, step) && Safe(q, step)
    ensures if step.Request? then Rank(Apply(q, step)) == Rank(q) + 10 else Rank(Apply(q, step)) < Rank(q)
  {
    match step {
      case Request(p, req) => SumUpdate(q.producers, p, Trying(req), ProducerRank);
      case TryReserve(p) =>
        SumUpdate(q.producers, p, Apply(q, step).producers[p], ProducerRank);
      case WaitReserve(p) => SumUpdate(q.producers, p, Reserved(q.producers[p].req), ProducerRank);
      case TimeOut(p) => SumUpdate(q.producers, p, Idle, ProducerRank);
      case Insert(p) => SumUpdate(q.producers, p, Inserted, ProducerRank);
      case PostFilled(p) => SumUpdate(q.producers, p, Idle, ProducerRank);
      case _ =>
    }
  }

  ghost function RequestCount<T>(steps: seq<Step<T>>): nat {
    if steps == [] then 0 else RequestCount(steps[..|steps| - 1]) + (if steps[|steps| - 1].Request? then 1 else 0)
  }

  /** A run is at most eleven times as long as the number of requests made in it, plus six. */
  lemma {:induction false} RunLengthBound<T>(states: seq<Queue<T>>, steps: seq<Step<T>>, k: nat)
    requires IsRun(states, steps) && k <= |steps|
    ensures k + Rank(states[k]) <= 6 + 11 * RequestCount(steps[..k])
  {
    if k == 0 {
      SumZero(states[0].producers, ProducerRank);
    } else {
      RunLengthBound(states, steps, k - 1);
      EveryReachableState(states, steps, k - 1);
      assert StepsTo(states[k - 1], steps[k - 1], states[k]);
      StepRank(states[k - 1], steps[k - 1]);
      assert steps[..k][..k - 1] == steps[..k - 1];
    }
  }

  // ---------------------------------------------------------------- shutdown

  /** After the interrupt, until the processor has stopped, some thread can step on its own: the extra token. */
  lemma NoDeadlockInShutdown<T>(q: Queue<T>) returns (step: Step<T>)
    requires Inv(q) && !q.running && !q.consumer.Stopped?
    ensures Enabled(q, step) && !External(step)
  {
    if q.main.Stopping? { return ShutdownPost; }
    if !q.consumer.AwaitingItem? {
      return match q.consumer
             case Looping => TestLoop case Acquired => TestAgain case Cleared => Remove
             case Removed(_) => PostEmpty case _ => Process;
    }
    if q.filled > 0 { return TakeToken; }
    if i: nat :| i < |q.producers| && q.producers[i].Inserted? { return PostFilled(i); }
    SumZero(q.producers, IsInserted);
    assert false;
  }

  /** The processor always stops: after the interrupt, a run that no thread can continue on its own has stopped it. */
  lemma ProcessorStops<T>(states: seq<Queue<T>>, steps: seq<Step<T>>)
    requires IsRun(states, steps) && !states[|steps|].running
    requires forall step :: Enabled(states[|steps|], step) ==> External(step)
    ensures states[|steps|].consumer.Stopped?
    ensures |steps| <= 6 + 11 * RequestCount(steps)
  {
    var q := states[|steps|];
    EveryReachableState(states, steps, |steps|);
    if !q.consumer.Stopped? { var step := NoDeadlockInShutdown(q); }
    RunLengthBound(states, steps, |steps|);
    assert steps[..|steps|] == steps;
  }

  /** Requests processed, counting the one the processor has committed itself to. */
  function Committed<T>(q: Queue<T>): nat {
    |q.processed| + if q.consumer.Cleared? || q.consumer.Removed? || q.consumer.Processing? then 1 else 0
  }

  /** Once the running flag is cleared, the processor finishes the request it is at and takes no other. */
  lemma {:induction false} NoNewRequestAfterInterrupt<T>(states: seq<Queue<T>>, steps: seq<Step<T>>, i: nat, j: nat)
    requires IsRun(states, steps) && i <= j < |states| && !states[i].running
    ensures !states[j].running && Committed(states[j]) <= Committed(states[i])
    ensures |states[j].processed| <= |states[i].processed| + 1
    decreases j
  {
    if i < j {
      NoNewRequestAfterInterrupt(states, steps, i, j - 1);
      assert StepsTo(states[j - 1], steps[j - 1], states[j]);
    }
  }

  // ---------------------------------------------------------------- no request is lost

  /** Whether a client is still trying to queue the request r. */
  ghost function Wants<T>(r: T): ProducerPc<T> -> int {
    (p: ProducerPc<T>) => if (p.Trying? || p.Waiting? || p.Reserved?) && p.req == r then 1 else 0
  }

  /** How often the steps of a run request r. */
  ghost function TimesRequested<T>(steps: seq<Step<T>>, r: T): nat {
    if steps == [] then 0
    else
      var last := steps[|steps| - 1];
      TimesRequested(steps[..|steps| - 1], r) + if last.Request? && last.req == r then 1 else 0
  }

  ghost predicate GivesUp<T>(q: Queue<T>, step: Step<T>, r: T) {
    step.TimeOut? && step.p < |q.producers| && q.producers[step.p] == Waiting(r)
  }

  /** How often r was given up in the first k steps, because its timed wait ran out. */
  ghost function TimesGivenUp<T>(states: seq<Queue<T>>, steps: seq<Step<T>>, k: nat, r: T): nat
    requires |states| == |steps| + 1 && k <= |steps|
  {
    if k == 0 then 0
    else TimesGivenUp(states, steps, k - 1, r) + if GivesUp(states[k - 1], steps[k - 1], r) then 1 else 0
  }

  lemma RequestByStep<T>(q: Queue<T>, step: Step<T>, r: T)
    requires Enabled(q, step) && Safe(q, step)
    ensures multiset(Apply(q, step).inserted)[r] + Sum(Apply(q, step).producers, Wants(r))
            + (if GivesUp(q, step, r) then 1 else 0)
         == multiset(q.inserted)[r] + Sum(q.producers, Wants(r)) + (if step.Request? && step.req == r then 1 else 0)
  {
    var q' := Apply(q, step);
    if step.Request? || step.TryReserve? || step.WaitReserve? || step.TimeOut? || step.Insert? || step.PostFilled? {
      SumUpdate(q.producers, step.p, q'.producers[step.p], Wants(r));
    }
  }

  /**
    In every interleaving each request is, as often as it was made, inserted, still wanted by its client, or
    given up after a timed wait: none is lost and none is made up.
   */
  lemma {:induction false} RequestsConserved<T>(states: seq<Queue<T>>, steps: seq<Step<T>>, k: nat, r: T)
    requires IsRun(states, steps) && k <= |steps|
    ensures multiset(states[k].inserted)[r] + Sum(states[k].producers, Wants(r)) + TimesGivenUp(states, steps, k, r)
         == TimesRequested(steps[..k], r)
  {
    if k == 0 {
      SumZero(states[0].producers, Wants(r));
    } else {
      RequestsConserved(states, steps, k - 1, r);
      assert StepsTo(states[k - 1], steps[k - 1], states[k]);
      assert steps[..k][..k - 1] == steps[..k - 1];
      RequestByStep(states[k - 1], steps[k - 1], r);
    }
  }

  /** A client gets to wait only by trying when no slot is free; while one is, the try takes it for its request. */
  lemma WaitsOnlyWhenFull<T>(q: Queue<T>, step: Step<T>, p: nat)
    requires Enabled(q, step) && Safe(q, step) && p < |q.producers|
    ensures !q.producers[p].Waiting? && Apply(q, step).producers[p].Waiting? ==> step == TryReserve(p) && q.empty == 0
    ensures step == TryReserve(p) && q.empty > 0 ==>
              Apply(q, step).producers[p] == Reserved(q.producers[p].req) && Apply(q, step).empty == q.empty - 1
    ensures step == WaitReserve(p) ==> Apply(q, step).producers[p] == Reserved(q.producers[p].req)
    ensures q.producers[p].Reserved? ==>
              || Apply(q, step).producers[p] == q.producers[p]
              || (step == Insert(p) && Apply(q, step).inserted == q.inserted + [q.producers[p].req])
  {}

  /** A request is turned away only if its client once found all slots taken, and waited in vain since. */
  lemma {:induction false} TurnedAwayOnlyWhenFull<T>(states: seq<Queue<T>>, steps: seq<Step<T>>, p: nat, k: nat) returns (j: nat)
    requires IsRun(states, steps) && k < |states| && p < |states[k].producers| && states[k].producers[p].Waiting?
    ensures j < k && steps[j] == TryReserve(p) && states[j].empty == 0
    ensures forall l :: j < l <= k ==> p < |states[l].producers| && states[l].producers[p] == states[k].producers[p]
  {
    assert k > 0;
    j := k - 1;
    assert StepsTo(states[j], steps[j], states[k]);
    if states[j].producers[p].Waiting? {
      j := TurnedAwayOnlyWhenFull(states, steps, p, j);
    }
  }

  /**
    A run that no thread can continue on its own, while the server is running: every request has been processed
    as often as it was made, except where its client gave up after waiting for a free slot.
   */
  lemma EveryRequestProcessed<T>(states: seq<Queue<T>>, steps: seq<Step<T>>, r: T)
    requires IsRun(states, steps) && states[|steps|].running
    requires forall step :: Enabled(states[|steps|], step) ==> External(step)
    ensures multiset(states[|steps|].processed)[r] + TimesGivenUp(states, steps, |steps|, r) == TimesRequested(steps, r)
  {
    var q := states[|steps|];
    EveryReachableState(states, steps, |steps|);
    if !Quiet(q) { var step := NoDeadlockWhileRunning(q); }
    RequestsConserved(states, steps, |steps|, r);
    assert steps[..|steps|] == steps;
    SumZero(q.producers, Wants(r));
  }
}
