/**
  The threaded log search: one manager feeding a bounded buffer, any number of workers draining it,
  a two-phase barrier, and the printed total. A system state is shared memory plus the program point of
  every thread; a step is one lock section or one thread-local stretch. Condition variables keep, per
  waiting thread, whether it has been notified; a signal wakes at least one waiter, any waiter may wake
  spuriously.
 */
module LogSearch {
  import opened Options
  import opened Rings
  import opened Matches
  import opened Sums

  // ---------------------------------------------------------------- states

  datatype ManagerPc =
    | Reading                      // about to read the next line of the file
    | Putting(line: string)        // about to lock the buffer for a put
    | Blocked(line: string)        // waiting on not_full, not notified
    | Woken(line: string)          // waiting on not_full, notified: will re-lock and re-test
    | Closing                      // end of file: about to set eof
    | ManagerDone

  datatype WorkerPc =
    | Getting                      // about to lock the buffer for a get
    | Asleep                       // waiting on not_empty, not notified
    | Roused                       // waiting on not_empty, notified: will re-lock and re-test
    | Counting(line: string)       // counting matches in a line it took
    | Leaving                      // got no line: about to publish its count and reach the first barrier
    | AtFirstBarrier
    | Reporting                    // about to print its count and reach the second barrier
    | AtSecondBarrier
    | Summing                      // the serial thread: about to add up all counts
    | WorkerDone

  datatype Worker = Worker(pc: WorkerPc, local: nat, matches: nat)

  /** `put` and `taken` are history: every line ever put, and every line ever taken, in order. */
  datatype System = System(
    ring: Ring<string>, eof: bool, input: seq<string>,
    put: seq<string>, taken: seq<string>,
    manager: ManagerPc, workers: seq<Worker>, total: Option<nat>)

  datatype Step =
    | ManagerRead
    | ManagerPut(woken: set<nat>)         // the workers the signal wakes
    | ManagerClose
    | ManagerWakesSpuriously
    | WorkerGet(i: nat)
    | WorkerCount(i: nat)
    | WorkerArriveFirst(i: nat)
    | WorkerArriveSecond(i: nat, serial: nat)  // the thread the barrier designates
    | WorkerSum(i: nat)
    | WorkerWakesSpuriously(i: nat)

  predicate Spurious(step: Step) {
    step.ManagerWakesSpuriously? || step.WorkerWakesSpuriously?
  }

  ghost function Sleepers(ws: seq<Worker>): set<nat> {
    set i: nat | i < |ws| && ws[i].pc.Asleep?
  }

  function Rouse(ws: seq<Worker>, woken: set<nat>): (r: seq<Worker>)
    ensures |r| == |ws|
  {
    seq(|ws|, i requires 0 <= i < |ws| => if i in woken then ws[i].(pc := Roused) else ws[i])
  }

  predicate OthersAt(ws: seq<Worker>, i: nat, pc: WorkerPc) {
    forall j :: 0 <= j < |ws| && j != i ==> ws[j].pc == pc
  }

  function AllTo(ws: seq<Worker>, pc: WorkerPc): (r: seq<Worker>)
    ensures |r| == |ws|
  {
    seq(|ws|, i requires 0 <= i < |ws| => ws[i].(pc := pc))
  }

  ghost predicate Initial(s: System, lines: seq<string>) {
    && s.ring.Valid() && s.ring.size == 0
    && !s.eof && s.input == lines && s.put == [] && s.taken == []
    && s.manager == Reading && s.total == None
    && 0 < |s.workers|
    && forall i :: 0 <= i < |s.workers| ==> s.workers[i] == Worker(Getting, 0, 0)
  }

  // ---------------------------------------------------------------- steps

  ghost predicate Enabled(s: System, step: Step) {
    match step
    case ManagerRead => s.manager.Reading?
    case ManagerPut(woken) =>
      && (s.manager.Putting? || s.manager.Woken?)
      && (if s.eof || s.ring.size == s.ring.Capacity() then woken == {}
          else woken <= Sleepers(s.workers) && (Sleepers(s.workers) != {} ==> woken != {}))
    case ManagerClose => s.manager.Closing?
    case ManagerWakesSpuriously => s.manager.Blocked?
    case WorkerGet(i) => i < |s.workers| && (s.workers[i].pc.Getting? || s.workers[i].pc.Roused?)
    case WorkerCount(i) => i < |s.workers| && s.workers[i].pc.Counting?
    case WorkerArriveFirst(i) => i < |s.workers| && s.workers[i].pc.Leaving?
    case WorkerArriveSecond(i, serial) => i < |s.workers| && s.workers[i].pc.Reporting? && serial < |s.workers|
    case WorkerSum(i) => i < |s.workers| && s.workers[i].pc.Summing?
    case WorkerWakesSpuriously(i) => i < |s.workers| && s.workers[i].pc.Asleep?
  }

  /** With an empty search term the counting loop finds the term for ever, so a count never completes. */
  ghost predicate Possible(s: System, step: Step, term: string) {
    Enabled(s, step) && (step.WorkerCount? ==> term != [])
  }

  /** The lock section of a put, from the test of the wait loop on. */
  ghost function PutSection(s: System, line: string, woken: set<nat>): System
    requires s.ring.Valid()
  {
    if s.ring.size == s.ring.Capacity() && !s.eof then s.(manager := Blocked(line))
    else if s.eof then s.(manager := Reading)
    else s.(ring := s.ring.Push(line), put := s.put + [line], manager := Reading, workers := Rouse(s.workers, woken))
  }

  /** The lock section of a get; its signal on not_full can only reach the manager. */
  ghost function GetSection(s: System, i: nat): System
    requires s.ring.Valid() && i < |s.workers|
  {
    var w := s.workers[i];
    if s.ring.size == 0 && !s.eof then s.(workers := s.workers[i := w.(pc := Asleep)])
    else if s.ring.size == 0 then s.(workers := s.workers[i := w.(pc := Leaving)])
    else
      s.(ring := s.ring.Pop(), taken := s.taken + [s.ring.First()],
         workers := s.workers[i := w.(pc := Counting(s.ring.First()))],
         manager := if s.manager.Blocked? then Woken(s.manager.line) else s.manager)
  }

  ghost function Apply(s: System, step: Step, term: string): System
    requires s.ring.Valid() && Enabled(s, step)
  {
    match step
    case ManagerRead =>
      if s.input == [] then s.(manager := Closing) else s.(manager := Putting(s.input[0]), input := s.input[1..])
    case ManagerPut(woken) => PutSection(s, s.manager.line, woken)
    case ManagerClose => s.(eof := true, manager := ManagerDone, workers := Rouse(s.workers, Sleepers(s.workers)))
    case ManagerWakesSpuriously => s.(manager := Woken(s.manager.line))
    case WorkerGet(i) => GetSection(s, i)
    case WorkerCount(i) =>
      var w := s.workers[i];
      s.(workers := s.workers[i := w.(pc := Getting, local := w.local + Occurrences(w.pc.line, term))])
    case WorkerArriveFirst(i) =>
      var published := s.workers[i := s.workers[i].(pc := AtFirstBarrier, matches := s.workers[i].local)];
      s.(workers := if OthersAt(s.workers, i, AtFirstBarrier) then AllTo(published, Reporting) else published)
    case WorkerArriveSecond(i, serial) =>
      if OthersAt(s.workers, i, AtSecondBarrier) then
        var released := AllTo(s.workers, WorkerDone);
        s.(workers := released[serial := released[serial].(pc := Summing)])
      else s.(workers := s.workers[i := s.workers[i].(pc := AtSecondBarrier)])
    case WorkerSum(i) =>
      s.(workers := s.workers[i := s.workers[i].(pc := WorkerDone)],
         total := Some(SumOfMatches(s.workers)))
    case WorkerWakesSpuriously(i) => s.(workers := s.workers[i := s.workers[i].(pc := Roused)])
  }

  ghost function SumOfMatches(ws: seq<Worker>): (t: nat)
  {
    SumNonNegative(ws, (w: Worker) => w.matches, 0);
    Sum(ws, (w: Worker) => w.matches)
  }

  // ---------------------------------------------------------------- invariant

  predicate InLoop(pc: WorkerPc) {
    pc.Getting? || pc.Asleep? || pc.Roused? || pc.Counting?
  }

  predicate BeforeFirst(pc: WorkerPc) {
    InLoop(pc) || pc.Leaving? || pc.AtFirstBarrier?
  }

  predicate BetweenBarriers(pc: WorkerPc) {
    pc.Reporting? || pc.AtSecondBarrier?
  }

  predicate AfterSecond(pc: WorkerPc) {
    pc.Summing? || pc.WorkerDone?
  }

  ghost predicate AllWorkers(ws: seq<Worker>, p: WorkerPc -> bool) {
    forall i :: 0 <= i < |ws| ==> p(ws[i].pc)
  }

  function IsRoused(w: Worker): int { if w.pc.Roused? then 1 else 0 }
  function IsSumming(w: Worker): int { if w.pc.Summing? then 1 else 0 }

  /** Matches a worker has counted plus those in the line it is counting. */
  ghost function Credit(term: string): Worker -> int {
    (w: Worker) => w.local + (if w.pc.Counting? then Occurrences(w.pc.line, term) else 0)
  }

  ghost function Pending(m: ManagerPc): seq<string> {
    if m.Putting? || m.Blocked? || m.Woken? then [m.line] else []
  }

  /** Conservation: every line is unread, in the manager's hand, in the ring or taken, in file order. */
  ghost predicate Conserved(s: System, lines: seq<string>) {
    && s.ring.Valid()
    && s.put == s.taken + s.ring.Items()
    && s.put + Pending(s.manager) + s.input == lines
    && (s.manager.Closing? || s.manager.ManagerDone? ==> s.input == [])
  }

  /** No wakeup is lost. */
  ghost predicate NoLostWakeup(s: System) {
    && (s.manager.Blocked? ==> s.ring.size == s.ring.Capacity())
    && (Sleepers(s.workers) != {} ==> !s.eof && s.ring.size <= Sum(s.workers, IsRoused))
  }

  /** The barriers keep the workers in step. */
  ghost predicate Phased(s: System) {
    && 0 < |s.workers|
    && (s.eof <==> s.manager.ManagerDone?)
    && (forall i :: 0 <= i < |s.workers| && !InLoop(s.workers[i].pc) ==> s.eof && s.ring.size == 0)
    && (|| (AllWorkers(s.workers, BeforeFirst) && exists i :: 0 <= i < |s.workers| && !s.workers[i].pc.AtFirstBarrier?)
        || (AllWorkers(s.workers, BetweenBarriers) && exists i :: 0 <= i < |s.workers| && !s.workers[i].pc.AtSecondBarrier?)
        || AllWorkers(s.workers, AfterSecond))
  }

  /** Counts are conserved too, and the printed total is the count over the whole file. */
  ghost predicate Counted(s: System, lines: seq<string>, term: string) {
    && Sum(s.workers, Credit(term)) == TotalOccurrences(s.taken, term)
    && (forall i :: 0 <= i < |s.workers| && !InLoop(s.workers[i].pc) && !s.workers[i].pc.Leaving?
                    ==> s.workers[i].matches == s.workers[i].local)
    && (AllWorkers(s.workers, AfterSecond)
        ==> Sum(s.workers, IsSumming) + (if s.total.Some? then 1 else 0) == 1)
    && (s.total.Some? ==> AllWorkers(s.workers, AfterSecond) && s.total.value == TotalOccurrences(lines, term))
  }

  ghost predicate NothingCounted(ws: seq<Worker>) {
    forall i :: 0 <= i < |ws| ==> ws[i].local == 0
  }

  ghost predicate Inv(s: System, lines: seq<string>, term: string) {
    && Conserved(s, lines) && NoLostWakeup(s) && Phased(s) && Counted(s, lines, term)
    && (term == [] ==> NothingCounted(s.workers))
  }
}
