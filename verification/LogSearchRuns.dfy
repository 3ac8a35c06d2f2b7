/**
  Whole runs of the log search: the invariant in every reachable state, freedom from deadlock, a rank
  that every step except a spurious wakeup lowers, and the printed total of a finished run.
 */
module LogSearchRuns {
  import opened Options
  import opened Rings
  import opened Matches
  import opened Sums
  import opened LogSearch
  import opened LogSearchProofs

  ghost predicate StepsTo(s: System, step: Step, s': System, term: string) {
    s.ring.Valid() && Possible(s, step, term) && s' == Apply(s, step, term)
  }

  /** A run: its states, one more than its steps. */
  ghost predicate IsRun(states: seq<System>, steps: seq<Step>, lines: seq<string>, term: string) {
    && |states| == |steps| + 1
    && Initial(states[0], lines)
    && forall k :: 0 <= k < |steps| ==> StepsTo(states[k], steps[k], states[k + 1], term)
  }

  lemma {:induction false} EveryReachableState(states: seq<System>, steps: seq<Step>, lines: seq<string>, term: string, k: nat)
    requires IsRun(states, steps, lines, term) && k < |states|
    ensures Inv(states[k], lines, term)
  {
    if k == 0 {
      InitialHasInv(states[0], lines, term);
    } else {
      EveryReachableState(states, steps, lines, term, k - 1);
      assert StepsTo(states[k - 1], steps[k - 1], states[k], term);
      StepKeepsInv(states[k - 1], steps[k - 1], lines, term);
    }
  }

  /** In every interleaving the lines taken are a prefix of the file, in file order. */
  lemma TakenInFileOrder(states: seq<System>, steps: seq<Step>, lines: seq<string>, term: string, k: nat)
    requires IsRun(states, steps, lines, term) && k < |states|
    ensures states[k].ring.Valid() && states[k].ring.size <= states[k].ring.Capacity()
    ensures states[k].taken + states[k].ring.Items() == states[k].put
    ensures states[k].put <= lines
  {
    EveryReachableState(states, steps, lines, term, k);
    var s := states[k];
    assert s.put + (Pending(s.manager) + s.input) == lines;
  }

  // ---------------------------------------------------------------- deadlock freedom

  ghost predicate Finished(s: System) {
    s.manager.ManagerDone? && forall i :: 0 <= i < |s.workers| ==> s.workers[i].pc.WorkerDone?
  }

  /** The step a worker that is neither asleep nor inside a barrier takes next. */
  function NextOf(s: System, i: nat): (step: Step)
    requires i < |s.workers|
  {
    match s.workers[i].pc
    case Counting(_) => WorkerCount(i)
    case Leaving => WorkerArriveFirst(i)
    case Reporting => WorkerArriveSecond(i, i)
    case Summing => WorkerSum(i)
    case _ => WorkerGet(i)
  }

  predicate Resting(pc: WorkerPc) {
    pc.Asleep? || pc.AtFirstBarrier? || pc.AtSecondBarrier? || pc.WorkerDone?
  }

  lemma AwakeWorkerSteps(s: System, i: nat)
    requires i < |s.workers| && !Resting(s.workers[i].pc)
    ensures Enabled(s, NextOf(s, i)) && !Spurious(NextOf(s, i))
  {}

  /** If every worker sleeps before eof, none is roused, so the ring is empty and the manager is not blocked. */
  lemma AllAsleepMeansEmpty(s: System, lines: seq<string>, term: string)
    requires Inv(s, lines, term) && !s.eof && forall i :: 0 <= i < |s.workers| ==> s.workers[i].pc.Asleep?
    ensures s.ring.size == 0 && !s.manager.Blocked?
  {
    assert 0 in Sleepers(s.workers);
    SumZero(s.workers, IsRoused);
  }

  /** No line of an empty file is ever being counted. */
  lemma NothingToCount(s: System, i: nat)
    requires Inv(s, [], []) && i < |s.workers|
    ensures !s.workers[i].pc.Counting?
  {
    if s.workers[i].pc.Counting? {
      assert s.taken == [];
      SumNonNegative(s.workers, Credit([]), i);
      EmptyTermOccurs(s.workers[i].pc.line);
    }
  }

  /**
    Until all threads have finished, some thread can take a step that is not a spurious wakeup; unless the
    search term is empty and there is a line to search.
   */
  lemma NoDeadlock(s: System, lines: seq<string>, term: string) returns (step: Step)
    requires Inv(s, lines, term) && !Finished(s) && (term != [] || lines == [])
    ensures Possible(s, step, term) && !Spurious(step)
  {
    if i: nat :| i < |s.workers| && !Resting(s.workers[i].pc) {
      if term == [] { NothingToCount(s, i); }
      AwakeWorkerSteps(s, i);
      return NextOf(s, i);
    }
    assert forall i :: 0 <= i < |s.workers| ==> Resting(s.workers[i].pc);
    if s.eof {
      assert forall i :: 0 <= i < |s.workers| ==> i !in Sleepers(s.workers);
      AllRestingAfterEof(s);
    } else {
      forall i | 0 <= i < |s.workers| ensures s.workers[i].pc.Asleep? { assert InLoop(s.workers[i].pc); }
      AllAsleepMeansEmpty(s, lines, term);
      match s.manager {
        case Reading => return ManagerRead;
        case Closing => return ManagerClose;
        case _ =>
          var woken := if s.ring.size == s.ring.Capacity() then {} else Sleepers(s.workers);
          return ManagerPut(woken);
      }
    }
  }

  /** After eof, workers cannot all be resting unless all are done: a barrier never holds everyone. */
  lemma AllRestingAfterEof(s: System)
    requires Phased(s) && s.eof && Sleepers(s.workers) == {}
    requires forall i :: 0 <= i < |s.workers| ==> Resting(s.workers[i].pc)
    ensures Finished(s)
  {
    assert forall i: nat :: i < |s.workers| && s.workers[i].pc.Asleep? ==> i in Sleepers(s.workers);
  }

  // ---------------------------------------------------------------- termination

  function WorkerRank(w: Worker): int {
    match w.pc
    case WorkerDone => 0
    case Summing => 1
    case AtSecondBarrier => 2
    case Reporting => 3
    case AtFirstBarrier => 4
    case Leaving => 5
    case Asleep => 6
    case Roused => 7
    case Getting => 7
    case Counting(_) => 8
  }

  /** With n workers: a pending line must pay for one ring slot and for waking everyone. */
  function ManagerRank(m: ManagerPc, n: nat): nat {
    match m
    case ManagerDone => 0
    case Closing => n + 1
    case Reading => n + 2
    case Blocked(_) => 2 * n + 6
    case Putting(_) => 2 * n + 7
    case Woken(_) => 2 * n + 7
  }

  function InputRank(n: nat, unread: nat): nat {
    (n + 6) * unread
  }

  ghost function Rank(s: System): (r: nat) {
    SumNonNegative(s.workers, WorkerRank, 0);
    InputRank(|s.workers|, |s.input|) + ManagerRank(s.manager, |s.workers|) + 3 * s.ring.size
    + Sum(s.workers, WorkerRank)
  }

  lemma RouseRank(ws: seq<Worker>, woken: set<nat>)
    requires woken <= Sleepers(ws)
    ensures Sum(Rouse(ws, woken), WorkerRank) <= Sum(ws, WorkerRank) + |ws|
  {
    SumWithin(ws, Rouse(ws, woken), WorkerRank, 1);
  }

  lemma ReadLowersRank(s: System, term: string)
    requires s.ring.Valid() && Enabled(s, ManagerRead)
    ensures Rank(Apply(s, ManagerRead, term)) < Rank(s)
  {}

  lemma PutLowersRank(s: System, woken: set<nat>, term: string)
    requires s.ring.Valid() && Enabled(s, ManagerPut(woken)) && !s.eof
    ensures Rank(Apply(s, ManagerPut(woken), term)) < Rank(s)
  {
    if s.ring.size < s.ring.Capacity() { RouseRank(s.workers, woken); }
  }

  lemma CloseLowersRank(s: System, term: string)
    requires s.ring.Valid() && Enabled(s, ManagerClose)
    ensures Rank(Apply(s, ManagerClose, term)) < Rank(s)
  {
    RouseRank(s.workers, Sleepers(s.workers));
  }

  lemma OneWorkerRank(s: System, step: Step, term: string, i: nat)
    requires s.ring.Valid() && Enabled(s, step) && i < |s.workers|
    requires step == WorkerGet(i) || step == WorkerCount(i) || step == WorkerSum(i) || step == WorkerWakesSpuriously(i)
    ensures if step.WorkerWakesSpuriously? then Rank(Apply(s, step, term)) == Rank(s) + 1
            else Rank(Apply(s, step, term)) < Rank(s)
  {
    var s' := Apply(s, step, term);
    SumUpdate(s.workers, i, s'.workers[i], WorkerRank);
  }

  lemma BarrierRank(s: System, step: Step, term: string)
    requires s.ring.Valid() && Enabled(s, step) && (step.WorkerArriveFirst? || step.WorkerArriveSecond?)
    ensures Rank(Apply(s, step, term)) < Rank(s)
  {
    var s' := Apply(s, step, term);
    SumStrict(s'.workers, s.workers, WorkerRank, step.i);
  }

  /** Every step lowers the rank, except that a spurious wakeup raises it by one. */
  lemma StepRank(s: System, step: Step, lines: seq<string>, term: string)
    requires Inv(s, lines, term) && Enabled(s, step)
    ensures if Spurious(step) then Rank(Apply(s, step, term)) == Rank(s) + 1 else Rank(Apply(s, step, term)) < Rank(s)
  {
    match step {
      case ManagerRead => ReadLowersRank(s, term);
      case ManagerPut(woken) => PutLowersRank(s, woken, term);
      case ManagerClose => CloseLowersRank(s, term);
      case ManagerWakesSpuriously =>
      case WorkerGet(i) => OneWorkerRank(s, step, term, i);
      case WorkerCount(i) => OneWorkerRank(s, step, term, i);
      case WorkerSum(i) => OneWorkerRank(s, step, term, i);
      case WorkerWakesSpuriously(i) => OneWorkerRank(s, step, term, i);
      case WorkerArriveFirst(i) => BarrierRank(s, step, term);
      case WorkerArriveSecond(i, serial) => BarrierRank(s, step, term);
    }
  }

  ghost function SpuriousCount(steps: seq<Step>): nat {
    if steps == [] then 0
    else SpuriousCount(steps[..|steps| - 1]) + (if Spurious(steps[|steps| - 1]) then 1 else 0)
  }

  lemma {:induction false} RunLengthFrom(states: seq<System>, steps: seq<Step>, lines: seq<string>, term: string, k: nat)
    requires IsRun(states, steps, lines, term) && k <= |steps|
    ensures k + Rank(states[k]) <= Rank(states[0]) + 2 * SpuriousCount(steps[..k])
  {
    if k > 0 {
      RunLengthFrom(states, steps, lines, term, k - 1);
      EveryReachableState(states, steps, lines, term, k - 1);
      assert StepsTo(states[k - 1], steps[k - 1], states[k], term);
      StepRank(states[k - 1], steps[k - 1], lines, term);
      assert steps[..k][..k - 1] == steps[..k - 1];
    }
  }

  /** Runs are finite: their length is bounded by the file, the number of workers, and the spurious wakeups. */
  lemma RunLengthBound(states: seq<System>, steps: seq<Step>, lines: seq<string>, term: string)
    requires IsRun(states, steps, lines, term)
    ensures var n := |states[0].workers|;
            |steps| <= (n + 6) * |lines| + 8 * n + 2 + 2 * SpuriousCount(steps)
  {
    RunLengthFrom(states, steps, lines, term, |steps|);
    assert steps[..|steps|] == steps;
    var s := states[0];
    InitialWorkerRank(s.workers);
  }

  lemma {:induction false} InitialWorkerRank(ws: seq<Worker>)
    requires forall i :: 0 <= i < |ws| ==> ws[i] == Worker(Getting, 0, 0)
    ensures Sum(ws, WorkerRank) == 7 * |ws|
  {
    if ws != [] { InitialWorkerRank(ws[..|ws| - 1]); }
  }

  // ---------------------------------------------------------------- the printed total

  /**
    A run that can go no further except by spurious wakeups has finished, every line of the file was taken
    exactly once, in order, and the printed total is the number of occurrences in the whole file; with an
    empty search term and a line to search it has not, and no total is ever printed.
   */
  lemma StuckRunHasPrintedTotal(states: seq<System>, steps: seq<Step>, lines: seq<string>, term: string)
    requires IsRun(states, steps, lines, term)
    requires forall step :: Possible(states[|steps|], step, term) ==> Spurious(step)
    ensures var s := states[|steps|];
            && (Finished(s) <==> term != [] || lines == [])
            && (Finished(s) ==> s.taken == lines && s.total == Some(TotalOccurrences(lines, term)))
  {
    var s := states[|steps|];
    EveryReachableState(states, steps, lines, term, |steps|);
    if !Finished(s) {
      if term != [] || lines == [] { var step := NoDeadlock(s, lines, term); }
    } else {
      FinishedTotal(s, lines, term);
      if term == [] { EmptyTermKeepsCounting(s, lines, term); }
    }
  }

  /** In no state of any run is a total printed for an empty term and a file with a line. */
  lemma EmptyTermPrintsNothing(states: seq<System>, steps: seq<Step>, lines: seq<string>, k: nat)
    requires IsRun(states, steps, lines, []) && k < |states| && lines != []
    ensures states[k].total == None
  {
    EveryReachableState(states, steps, lines, [], k);
    var s := states[k];
    if s.total.Some? {
      assert !InLoop(s.workers[0].pc);
      assert s.ring.Items() == [];
      assert s.taken + [] == s.taken && s.put + [] + [] == s.put;
      EmptyTermKeepsCounting(s, lines, []);
    }
  }

  lemma FinishedTotal(s: System, lines: seq<string>, term: string)
    requires Inv(s, lines, term) && Finished(s)
    ensures s.taken == lines && s.total == Some(TotalOccurrences(lines, term))
  {
    assert AllWorkers(s.workers, AfterSecond);
    assert !InLoop(s.workers[0].pc);
    SumZero(s.workers, IsSumming);
    assert s.ring.Items() == [];
    assert s.taken + [] == s.taken && s.put + [] + [] == s.put;
  }
}
