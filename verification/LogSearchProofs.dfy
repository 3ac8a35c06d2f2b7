/**
  What every run of the log search keeps, in every interleaving: lines and counts are conserved, no
  wakeup is lost, some thread can always step until all have finished, and runs are finite.
 */
module LogSearchProofs {
  import opened Options
  import opened Rings
  import opened Matches
  import opened Sums
  import opened LogSearch

  // ---------------------------------------------------------------- the invariant holds at the start

  lemma InitialHasInv(s: System, lines: seq<string>, term: string)
    requires Initial(s, lines)
    ensures Inv(s, lines, term)
  {
    SumZero(s.workers, Credit(term));
    assert !s.workers[0].pc.AtFirstBarrier?;
    assert !AfterSecond(s.workers[0].pc);
  }

  // ---------------------------------------------------------------- and after every step

  lemma ReadConserves(s: System, lines: seq<string>, term: string)
    requires Conserved(s, lines) && Enabled(s, ManagerRead)
    ensures Conserved(Apply(s, ManagerRead, term), lines)
  {}

  lemma PutConserves(s: System, line: string, woken: set<nat>, lines: seq<string>)
    requires Conserved(s, lines) && Enabled(s, ManagerPut(woken)) && line == s.manager.line && !s.eof
    ensures Conserved(PutSection(s, line, woken), lines)
  {
    if s.ring.size < s.ring.Capacity() {
      PushAppends(s.ring, line);
      assert s.put + [line] == s.taken + (s.ring.Items() + [line]);
      assert s.put + [line] + [] + s.input == lines;
    }
  }

  lemma GetConserves(s: System, i: nat, lines: seq<string>)
    requires Conserved(s, lines) && Enabled(s, WorkerGet(i))
    ensures Conserved(GetSection(s, i), lines)
  {
    if s.ring.size > 0 {
      PopTakesOldest(s.ring);
      assert s.taken + ([s.ring.First()] + s.ring.Pop().Items()) == s.taken + [s.ring.First()] + s.ring.Pop().Items();
    }
  }

  lemma ConservedKept(s: System, step: Step, lines: seq<string>, term: string)
    requires Inv(s, lines, term) && Enabled(s, step)
    ensures Conserved(Apply(s, step, term), lines)
  {
    match step {
      case ManagerRead => ReadConserves(s, lines, term);
      case ManagerPut(woken) => PutConserves(s, s.manager.line, woken, lines);
      case WorkerGet(i) => GetConserves(s, i, lines);
      case _ =>
    }
  }

  /** Waking sleepers raises the number of roused workers by at least one if it wakes anyone. */
  lemma RouseRaises(ws: seq<Worker>, woken: set<nat>)
    requires woken <= Sleepers(ws)
    ensures Sum(Rouse(ws, woken), IsRoused) >= Sum(ws, IsRoused) + (if woken != {} then 1 else 0)
  {
    SumMonotone(ws, Rouse(ws, woken), IsRoused);
    if woken != {} {
      var i :| i in woken;
      SumStrict(ws, Rouse(ws, woken), IsRoused, i);
    }
  }

  /** A worker outside the loop means end of file and a drained ring; before eof all workers are in the loop. */
  lemma AllInLoopBeforeEof(s: System)
    requires Phased(s) && !s.eof
    ensures forall i :: 0 <= i < |s.workers| ==> InLoop(s.workers[i].pc)
    ensures InLoop(s.workers[0].pc)
  {}

  lemma RouseInLoop(ws: seq<Worker>, woken: set<nat>, term: string)
    requires 0 < |ws| && woken <= Sleepers(ws) && forall i :: 0 <= i < |ws| ==> InLoop(ws[i].pc)
    ensures var ws' := Rouse(ws, woken);
            && (forall i :: 0 <= i < |ws'| ==> InLoop(ws'[i].pc))
            && Sleepers(ws') == Sleepers(ws) - woken
            && Sum(ws', Credit(term)) == Sum(ws, Credit(term))
            && InLoop(ws'[0].pc)
  {
    var ws' := Rouse(ws, woken);
    forall i | 0 <= i < |ws'| ensures InLoop(ws'[i].pc) { assert InLoop(ws[i].pc); }
    SumSame(ws', ws, Credit(term), Credit(term));
  }

  /** With every worker in the loop, the barrier and total clauses hold. */
  lemma LoopPhased(s: System, lines: seq<string>, term: string)
    requires 0 < |s.workers| && forall i :: 0 <= i < |s.workers| ==> InLoop(s.workers[i].pc)
    requires s.eof <==> s.manager.ManagerDone?
    requires Sum(s.workers, Credit(term)) == TotalOccurrences(s.taken, term) && s.total == None
    ensures Phased(s) && Counted(s, lines, term)
  {}

  lemma PutKeeps(s: System, line: string, woken: set<nat>, lines: seq<string>, term: string)
    requires Inv(s, lines, term) && Enabled(s, ManagerPut(woken)) && line == s.manager.line
    ensures var s' := PutSection(s, line, woken);
            NoLostWakeup(s') && Phased(s') && Counted(s', lines, term)
  {
    AllInLoopBeforeEof(s);
    var s' := PutSection(s, line, woken);
    assert !AfterSecond(s.workers[0].pc);
    if s.ring.size < s.ring.Capacity() {
      RouseInLoop(s.workers, woken, term);
      RouseRaises(s.workers, woken);
    }
    LoopPhased(s', lines, term);
  }

  lemma CloseKeeps(s: System, lines: seq<string>, term: string)
    requires Inv(s, lines, term) && Enabled(s, ManagerClose)
    ensures var s' := Apply(s, ManagerClose, term);
            NoLostWakeup(s') && Phased(s') && Counted(s', lines, term)
  {
    AllInLoopBeforeEof(s);
    assert !AfterSecond(s.workers[0].pc);
    RouseInLoop(s.workers, Sleepers(s.workers), term);
    LoopPhased(Apply(s, ManagerClose, term), lines, term);
  }

  /** Replacing the state of one worker of the loop keeps the barrier discipline. */
  lemma LoopMovePhased(s: System, s': System, i: nat, w: Worker)
    requires Phased(s) && i < |s.workers| && InLoop(s.workers[i].pc)
    requires s'.workers == s.workers[i := w] && s'.eof == s.eof && (s'.eof <==> s'.manager.ManagerDone?)
    requires s'.ring.size <= s.ring.size
    requires InLoop(w.pc) || (w.pc.Leaving? && s.eof && s'.ring.size == 0)
    ensures Phased(s')
    ensures !AllWorkers(s.workers, AfterSecond) && !AllWorkers(s'.workers, AfterSecond)
  {
    assert !AfterSecond(s.workers[i].pc) && !AfterSecond(s'.workers[i].pc);
    assert !BetweenBarriers(s.workers[i].pc);
    assert !s'.workers[i].pc.AtFirstBarrier?;
    forall j | 0 <= j < |s'.workers| ensures BeforeFirst(s'.workers[j].pc) {
      assert j != i ==> s'.workers[j] == s.workers[j];
    }
  }

  lemma GetNoLostWakeup(s: System, i: nat)
    requires s.ring.Valid() && NoLostWakeup(s) && Enabled(s, WorkerGet(i))
    ensures NoLostWakeup(GetSection(s, i))
  {
    var s' := GetSection(s, i);
    SumUpdate(s.workers, i, s'.workers[i], IsRoused);
    SumNonNegative(s'.workers, IsRoused, 0);
    if s.ring.size > 0 || s.eof { assert Sleepers(s'.workers) <= Sleepers(s.workers); }
  }

  /** Moving a worker that is not counting, possibly onto a line, changes the credits by that line. */
  lemma CreditMoves(ws: seq<Worker>, i: nat, pc: WorkerPc, term: string)
    requires i < |ws| && !ws[i].pc.Counting?
    ensures Sum(ws[i := ws[i].(pc := pc)], Credit(term))
         == Sum(ws, Credit(term)) + if pc.Counting? then Occurrences(pc.line, term) else 0
  {
    SumUpdate(ws, i, ws[i].(pc := pc), Credit(term));
  }

  lemma GetCredits(s: System, i: nat, term: string)
    requires s.ring.Valid() && Enabled(s, WorkerGet(i))
    requires Sum(s.workers, Credit(term)) == TotalOccurrences(s.taken, term)
    ensures Sum(GetSection(s, i).workers, Credit(term)) == TotalOccurrences(GetSection(s, i).taken, term)
  {
    var s' := GetSection(s, i);
    CreditMoves(s.workers, i, s'.workers[i].pc, term);
    if s.ring.size > 0 { TotalSnoc(s.taken, s.ring.First(), term); }
  }

  lemma GetCounted(s: System, i: nat, lines: seq<string>, term: string)
    requires s.ring.Valid() && Counted(s, lines, term) && Enabled(s, WorkerGet(i))
    requires !AllWorkers(s.workers, AfterSecond) && !AllWorkers(GetSection(s, i).workers, AfterSecond)
    ensures Counted(GetSection(s, i), lines, term)
  {
    GetCredits(s, i, term);
  }

  lemma GetKeeps(s: System, i: nat, lines: seq<string>, term: string)
    requires Inv(s, lines, term) && Enabled(s, WorkerGet(i))
    ensures var s' := GetSection(s, i);
            NoLostWakeup(s') && Phased(s') && Counted(s', lines, term)
  {
    var s' := GetSection(s, i);
    LoopMovePhased(s, s', i, s'.workers[i]);
    GetNoLostWakeup(s, i);
    GetCounted(s, i, lines, term);
  }

  lemma CountKeeps(s: System, i: nat, lines: seq<string>, term: string)
    requires Inv(s, lines, term) && Enabled(s, WorkerCount(i))
    ensures var s' := Apply(s, WorkerCount(i), term);
            NoLostWakeup(s') && Phased(s') && Counted(s', lines, term)
  {
    var s' := Apply(s, WorkerCount(i), term);
    LoopMovePhased(s, s', i, s'.workers[i]);
    SumUpdate(s.workers, i, s'.workers[i], IsRoused);
    assert Sleepers(s'.workers) == Sleepers(s.workers);
    SumUpdate(s.workers, i, s'.workers[i], Credit(term));
  }

  lemma SpuriousKeeps(s: System, i: nat, lines: seq<string>, term: string)
    requires Inv(s, lines, term) && Enabled(s, WorkerWakesSpuriously(i))
    ensures var s' := Apply(s, WorkerWakesSpuriously(i), term);
            NoLostWakeup(s') && Phased(s') && Counted(s', lines, term)
  {
    var s' := Apply(s, WorkerWakesSpuriously(i), term);
    LoopMovePhased(s, s', i, s'.workers[i]);
    SumUpdate(s.workers, i, s'.workers[i], IsRoused);
    assert i in Sleepers(s.workers);
    SumUpdate(s.workers, i, s'.workers[i], Credit(term));
  }

  lemma ArriveFirstPhased(s: System, i: nat, term: string)
    requires Phased(s) && s.ring.Valid() && Enabled(s, WorkerArriveFirst(i))
    ensures Phased(Apply(s, WorkerArriveFirst(i), term))
  {
    var s' := Apply(s, WorkerArriveFirst(i), term);
    assert BeforeFirst(s.workers[i].pc) && !InLoop(s.workers[i].pc);
    if OthersAt(s.workers, i, AtFirstBarrier) {
      assert !s'.workers[0].pc.AtSecondBarrier?;
      assert AllWorkers(s'.workers, BetweenBarriers);
    } else {
      var j :| 0 <= j < |s.workers| && j != i && !s.workers[j].pc.AtFirstBarrier?;
      assert !s'.workers[j].pc.AtFirstBarrier?;
    }
  }

  lemma ArriveFirstKeeps(s: System, i: nat, lines: seq<string>, term: string)
    requires Inv(s, lines, term) && Enabled(s, WorkerArriveFirst(i))
    ensures var s' := Apply(s, WorkerArriveFirst(i), term);
            NoLostWakeup(s') && Phased(s') && Counted(s', lines, term)
  {
    var s' := Apply(s, WorkerArriveFirst(i), term);
    ArriveFirstPhased(s, i, term);
    assert !AfterSecond(s.workers[i].pc) && !AfterSecond(s'.workers[i].pc);
    assert Sleepers(s'.workers) <= Sleepers(s.workers);
    SumSame(s.workers, s'.workers, Credit(term), Credit(term));
  }

  lemma ArriveSecondPhased(s: System, i: nat, serial: nat, term: string)
    requires Phased(s) && s.ring.Valid() && Enabled(s, WorkerArriveSecond(i, serial))
    ensures Phased(Apply(s, WorkerArriveSecond(i, serial), term))
  {
    var s' := Apply(s, WorkerArriveSecond(i, serial), term);
    assert BetweenBarriers(s.workers[i].pc) && !InLoop(s.workers[i].pc);
    assert !BeforeFirst(s.workers[i].pc) && !AfterSecond(s.workers[i].pc);
    if OthersAt(s.workers, i, AtSecondBarrier) {
      assert AllWorkers(s'.workers, AfterSecond);
    } else {
      var j :| 0 <= j < |s.workers| && j != i && !s.workers[j].pc.AtSecondBarrier?;
      assert !s'.workers[j].pc.AtSecondBarrier?;
    }
  }

  lemma ReleaseCounted(s: System, i: nat, serial: nat, lines: seq<string>, term: string)
    requires Phased(s) && Counted(s, lines, term) && s.ring.Valid() && Enabled(s, WorkerArriveSecond(i, serial))
    requires OthersAt(s.workers, i, AtSecondBarrier)
    ensures Counted(Apply(s, WorkerArriveSecond(i, serial), term), lines, term)
  {
    var s' := Apply(s, WorkerArriveSecond(i, serial), term);
    assert !AfterSecond(s.workers[i].pc);
    SumSame(s.workers, s'.workers, Credit(term), Credit(term));
    SerialIsAlone(s.workers, serial);
  }

  lemma ArriveCounted(s: System, i: nat, serial: nat, lines: seq<string>, term: string)
    requires Phased(s) && Counted(s, lines, term) && s.ring.Valid() && Enabled(s, WorkerArriveSecond(i, serial))
    requires !OthersAt(s.workers, i, AtSecondBarrier)
    ensures Counted(Apply(s, WorkerArriveSecond(i, serial), term), lines, term)
  {
    var s' := Apply(s, WorkerArriveSecond(i, serial), term);
    assert !AfterSecond(s.workers[i].pc) && !AfterSecond(s'.workers[i].pc);
    SumSame(s.workers, s'.workers, Credit(term), Credit(term));
  }

  lemma ArriveSecondCounted(s: System, i: nat, serial: nat, lines: seq<string>, term: string)
    requires Phased(s) && Counted(s, lines, term) && s.ring.Valid() && Enabled(s, WorkerArriveSecond(i, serial))
    ensures Counted(Apply(s, WorkerArriveSecond(i, serial), term), lines, term)
  {
    if OthersAt(s.workers, i, AtSecondBarrier) {
      ReleaseCounted(s, i, serial, lines, term);
    } else {
      ArriveCounted(s, i, serial, lines, term);
    }
  }

  lemma ArriveSecondKeeps(s: System, i: nat, serial: nat, lines: seq<string>, term: string)
    requires Inv(s, lines, term) && Enabled(s, WorkerArriveSecond(i, serial))
    ensures var s' := Apply(s, WorkerArriveSecond(i, serial), term);
            NoLostWakeup(s') && Phased(s') && Counted(s', lines, term)
  {
    var s' := Apply(s, WorkerArriveSecond(i, serial), term);
    ArriveSecondPhased(s, i, serial, term);
    ArriveSecondCounted(s, i, serial, lines, term);
    assert !InLoop(s.workers[i].pc);
    assert Sleepers(s'.workers) <= Sleepers(s.workers);
  }

  lemma SumKeeps(s: System, i: nat, lines: seq<string>, term: string)
    requires Inv(s, lines, term) && Enabled(s, WorkerSum(i))
    ensures var s' := Apply(s, WorkerSum(i), term);
            NoLostWakeup(s') && Phased(s') && Counted(s', lines, term)
  {
    var s' := Apply(s, WorkerSum(i), term);
    assert AfterSecond(s.workers[i].pc) && !InLoop(s.workers[i].pc);
    assert !BeforeFirst(s.workers[i].pc) && !BetweenBarriers(s.workers[i].pc);
    assert Sleepers(s'.workers) <= Sleepers(s.workers);
    SumUpdate(s.workers, i, s'.workers[i], IsSumming);
    SumNonNegative(s'.workers, IsSumming, i);
    SumSame(s.workers, s'.workers, Credit(term), Credit(term));
    TotalIsExact(s, i, lines, term);
  }

  lemma SerialIsAlone(ws: seq<Worker>, serial: nat)
    requires serial < |ws|
    ensures var released := AllTo(ws, WorkerDone);
            Sum(released[serial := released[serial].(pc := Summing)], IsSumming) == 1
  {
    var released := AllTo(ws, WorkerDone);
    SumZero(released, IsSumming);
    SumUpdate(released, serial, released[serial].(pc := Summing), IsSumming);
  }

  /** With an empty term, lines once taken stay uncounted, so some worker is still busy with one. */
  lemma EmptyTermKeepsCounting(s: System, lines: seq<string>, term: string)
    requires Inv(s, lines, term) && term == []
    requires forall i :: 0 <= i < |s.workers| ==> !s.workers[i].pc.Counting?
    ensures s.taken == []
  {
    SumZero(s.workers, Credit(term));
    EmptyTermTotal(s.taken);
  }

  /** When the serial thread adds up, every line of the file has been taken and counted. */
  lemma TotalIsExact(s: System, i: nat, lines: seq<string>, term: string)
    requires Inv(s, lines, term) && i < |s.workers| && s.workers[i].pc.Summing?
    ensures s.taken == lines && SumOfMatches(s.workers) == TotalOccurrences(lines, term)
    ensures term != [] || lines == []
  {
    assert !BeforeFirst(s.workers[i].pc) && !BetweenBarriers(s.workers[i].pc);
    assert AllWorkers(s.workers, AfterSecond);
    assert s.eof && s.ring.size == 0;
    assert s.ring.Items() == [];
    assert s.put + [] + [] == s.put && s.taken + [] == s.taken;
    SumSame(s.workers, s.workers, (w: Worker) => w.matches, Credit(term));
    if term == [] { EmptyTermKeepsCounting(s, lines, term); }
  }

  lemma NothingCountedKept(s: System, step: Step)
    requires s.ring.Valid() && NothingCounted(s.workers) && Enabled(s, step) && !step.WorkerCount?
    ensures NothingCounted(Apply(s, step, []).workers)
  {}

  /** Every step of every thread keeps the invariant. */
  lemma StepKeepsInv(s: System, step: Step, lines: seq<string>, term: string)
    requires Inv(s, lines, term) && Possible(s, step, term)
    ensures Inv(Apply(s, step, term), lines, term)
  {
    ConservedKept(s, step, lines, term);
    if term == [] { NothingCountedKept(s, step); }
    match step {
      case ManagerRead =>
      case ManagerPut(woken) => PutKeeps(s, s.manager.line, woken, lines, term);
      case ManagerClose => CloseKeeps(s, lines, term);
      case ManagerWakesSpuriously =>
      case WorkerGet(i) => GetKeeps(s, i, lines, term);
      case WorkerCount(i) => CountKeeps(s, i, lines, term);
      case WorkerArriveFirst(i) => ArriveFirstKeeps(s, i, lines, term);
      case WorkerArriveSecond(i, serial) => ArriveSecondKeeps(s, i, serial, lines, term);
      case WorkerSum(i) => SumKeeps(s, i, lines, term);
      case WorkerWakesSpuriously(i) => SpuriousKeeps(s, i, lines, term);
    }
  }
}
