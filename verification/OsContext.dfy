/**
  The operating system's own context switch, run by the simulator: the handler that saves a thread when it
  yields and the activation that resumes it, both from the program text, for every thread.
 */
module OsContext {
  import opened Cpu
  import opened CpuSteps

  /** The loop, four instructions from `at` on, that multiplies the thread number by the entry size. */
  predicate MultiplyLoop(prog: Program, at: int) {
    && Has(prog, at, JIF, [53, at + 4]) && Has(prog, at + 1, ADDI, [52, 51])
    && Has(prog, at + 2, ADD, [53, -1]) && Has(prog, at + 3, JIF, [24, at])
  }

  /** The yield handler, in the order it runs: load the thread number, find its entry, mark it, save its registers. */
  predicate LoadsThread(prog: Program) {
    && Has(prog, 400, CPY, [22, 50]) && Has(prog, 401, SET, [10, 51]) && Has(prog, 402, SET, [0, 52])
    && Has(prog, 403, CPY, [50, 53])
  }

  predicate ChecksState(prog: Program) {
    && Has(prog, 408, ADD, [52, 500]) && Has(prog, 409, ADD, [52, 3]) && Has(prog, 410, CPYI, [52, 60])
    && Has(prog, 411, SET, [2, 61]) && Has(prog, 412, SUBI, [61, 60]) && Has(prog, 413, JIF, [60, 420])
  }

  predicate MarksReady(prog: Program) {
    && Has(prog, 414, JIF, [24, 417]) && Has(prog, 417, SET, [0, 54]) && Has(prog, 418, SET, [54, 55])
    && Has(prog, 419, CPYI2, [55, 52])
  }

  predicate SavesCounter(prog: Program) {
    && Has(prog, 420, CPY, [4, 53]) && Has(prog, 421, ADD, [52, 1]) && Has(prog, 422, SET, [53, 55])
    && Has(prog, 423, CPYI2, [55, 52])
  }

  predicate SavesStackPointer(prog: Program) {
    && Has(prog, 424, CPY, [1, 53]) && Has(prog, 425, ADD, [52, 1]) && Has(prog, 426, SET, [53, 55])
    && Has(prog, 427, CPYI2, [55, 52]) && Has(prog, 428, JIF, [24, 700])
  }

  predicate SavesContext(prog: Program) {
    LoadsThread(prog) && MultiplyLoop(prog, 404) && ChecksState(prog) && MarksReady(prog) && SavesCounter(prog)
    && SavesStackPointer(prog)
  }

  /** The activation of the selected thread: mark it running, load its stack pointer, stamp it, jump to it. */
  predicate MarksRunning(prog: Program) {
    && Has(prog, 780, CPY, [23, 22]) && Has(prog, 781, ADD, [53, 3]) && Has(prog, 782, SET, [1, 54])
    && Has(prog, 783, SET, [54, 55]) && Has(prog, 784, CPYI2, [55, 53])
  }

  predicate LoadsStackPointer(prog: Program) {
    && Has(prog, 785, ADD, [53, 2]) && Has(prog, 786, CPY, [53, 50]) && Has(prog, 787, CPYI, [50, 1])
  }

  predicate StampsStart(prog: Program) {
    && Has(prog, 788, ADD, [53, -4]) && Has(prog, 789, CPY, [3, 54]) && Has(prog, 790, CPY, [53, 50])
    && Has(prog, 791, SET, [50, 55]) && Has(prog, 792, CPYI2, [55, 50])
  }

  predicate EntersThread(prog: Program) {
    && Has(prog, 793, ADD, [53, 3]) && Has(prog, 794, CPYI, [53, 19])
    && Has(prog, 795, ADD, [200, 1]) && Has(prog, 796, USER, [19])
  }

  predicate RestoresContext(prog: Program) {
    MarksRunning(prog) && LoadsStackPointer(prog) && StampsStart(prog) && EntersThread(prog)
  }

  /** The kernel runs at pc on behalf of thread t, with the words the program keeps at zero. */
  predicate Kernel(m: Machine, t: int, pc: int) {
    !m.halted && !m.crashed && m.kernel && m.mem[0] == pc && m.mem[22] == t && 1 <= t && m.mem[24] <= 0
  }

  predicate Scratch(a: int) { a == 0 || a == 3 || 50 <= a <= 61 }

  /** All words alike but for the program counter, the instruction count, the scratch words and the given ones. */
  ghost predicate KeptBut(m: Machine, m': Machine, others: set<int>) {
    forall a {:trigger m'.mem[a]} :: 0 <= a < 10000 && !Scratch(a) && a !in others ==> m'.mem[a] == m.mem[a]
  }

  // ---------------------------------------------------------------- saving

  lemma LoadThread(tr: seq<Machine>, i: nat, prog: Program, t: int)
    requires IsTrace(tr, prog) && i + 4 < |tr| && LoadsThread(prog) && Kernel(tr[i], t, 400)
    ensures var m, m' := tr[i], tr[i + 4];
            && Kernel(m', t, 404) && m'.mem[51] == 10 && m'.mem[52] == 0 && m'.mem[53] == t
            && m'.mem[3] == m.mem[3] + 4 && KeptBut(m, m', {})
  {
    StepCpy(tr, i, prog, 22, 50);
    StepSet(tr, i + 1, prog, 10, 51);
    StepSet(tr, i + 2, prog, 0, 52);
    StepCpy(tr, i + 3, prog, 50, 53);
  }

  lemma MultiplyRound(tr: seq<Machine>, i: nat, prog: Program, t: int, at: int)
    requires IsTrace(tr, prog) && i + 4 < |tr|
    requires MultiplyLoop(prog, at) && 0 <= at < 996 && Kernel(tr[i], t, at) && tr[i].mem[53] > 0
    ensures var m, m' := tr[i], tr[i + 4];
            && Kernel(m', t, at) && m'.mem[51] == m.mem[51]
            && m'.mem[52] == m.mem[52] + m.mem[51] && m'.mem[53] == m.mem[53] - 1
            && m'.mem[3] == m.mem[3] + 4 && KeptBut(m, m', {})
  {
    StepJif(tr, i, prog, 53, at + 4);
    StepAddi(tr, i + 1, prog, 52, 51);
    StepAdd(tr, i + 2, prog, 53, -1);
    StepJif(tr, i + 3, prog, 24, at);
  }

  /** For every counter value the loop adds the entry size that many times. */
  lemma {:induction false} Multiply(tr: seq<Machine>, i: nat, prog: Program, t: int, at: int, j: nat)
    requires IsTrace(tr, prog) && i + 4 * j + 1 < |tr|
    requires MultiplyLoop(prog, at) && 0 <= at < 996 && Kernel(tr[i], t, at) && tr[i].mem[53] == j && tr[i].mem[51] == 10
    ensures var m, m' := tr[i], tr[i + 4 * j + 1];
            && Kernel(m', t, at + 4) && m'.mem[52] == m.mem[52] + 10 * j
            && m'.mem[3] == m.mem[3] + 4 * j + 1 && KeptBut(m, m', {})
    decreases j
  {
    if j == 0 {
      StepJif(tr, i, prog, 53, at + 4);
    } else {
      MultiplyRound(tr, i, prog, t, at);
      Multiply(tr, i + 4, prog, t, at, j - 1);
    }
  }

  /** The thread's table entry lies in memory. */
  predicate HasEntry(t: int) { 1 <= t && 510 + 10 * t <= 10000 }

  lemma CheckState(tr: seq<Machine>, i: nat, prog: Program, t: int)
    requires IsTrace(tr, prog) && i + 6 < |tr| && ChecksState(prog) && HasEntry(t)
    requires Kernel(tr[i], t, 408) && tr[i].mem[52] == 10 * t
    ensures var m, m' := tr[i], tr[i + 6];
            && Kernel(m', t, if m.mem[503 + 10 * t] >= 2 then 420 else 414) && m'.mem[52] == 503 + 10 * t
            && m'.mem[3] == m.mem[3] + 6 && KeptBut(m, m', {})
  {
    StepAdd(tr, i, prog, 52, 500);
    StepAdd(tr, i + 1, prog, 52, 3);
    StepCpyi(tr, i + 2, prog, 52, 60);
    StepSet(tr, i + 3, prog, 2, 61);
    StepSubi(tr, i + 4, prog, 61, 60);
    StepJif(tr, i + 5, prog, 60, 420);
  }

  lemma MarkReady(tr: seq<Machine>, i: nat, prog: Program, t: int)
    requires IsTrace(tr, prog) && i + 4 < |tr| && MarksReady(prog) && HasEntry(t)
    requires Kernel(tr[i], t, 414) && tr[i].mem[52] == 503 + 10 * t
    ensures var m, m' := tr[i], tr[i + 4];
            && Kernel(m', t, 420) && m'.mem[52] == 503 + 10 * t && m'.mem[503 + 10 * t] == 0
            && m'.mem[3] == m.mem[3] + 4 && KeptBut(m, m', {503 + 10 * t})
  {
    StepJif(tr, i, prog, 24, 417);
    StepSet(tr, i + 1, prog, 0, 54);
    StepSet(tr, i + 2, prog, 54, 55);
    StepCpyi2(tr, i + 3, prog, 55, 52);
  }

  lemma SaveCounter(tr: seq<Machine>, i: nat, prog: Program, t: int)
    requires IsTrace(tr, prog) && i + 4 < |tr| && SavesCounter(prog) && HasEntry(t)
    requires Kernel(tr[i], t, 420) && tr[i].mem[52] == 503 + 10 * t
    ensures var m, m' := tr[i], tr[i + 4];
            && Kernel(m', t, 424) && m'.mem[52] == 504 + 10 * t && m'.mem[504 + 10 * t] == m.mem[4]
            && m'.mem[3] == m.mem[3] + 4 && KeptBut(m, m', {504 + 10 * t})
  {
    StepCpy(tr, i, prog, 4, 53);
    StepAdd(tr, i + 1, prog, 52, 1);
    StepSet(tr, i + 2, prog, 53, 55);
    StepCpyi2(tr, i + 3, prog, 55, 52);
  }

  lemma SaveStackPointer(tr: seq<Machine>, i: nat, prog: Program, t: int)
    requires IsTrace(tr, prog) && i + 5 < |tr| && SavesStackPointer(prog) && HasEntry(t)
    requires Kernel(tr[i], t, 424) && tr[i].mem[52] == 504 + 10 * t
    ensures var m, m' := tr[i], tr[i + 5];
            && Kernel(m', t, 700) && m'.mem[505 + 10 * t] == m.mem[1]
            && m'.mem[3] == m.mem[3] + 5 && KeptBut(m, m', {505 + 10 * t})
  {
    StepCpy(tr, i, prog, 1, 53);
    StepAdd(tr, i + 1, prog, 52, 1);
    StepSet(tr, i + 2, prog, 53, 55);
    StepCpyi2(tr, i + 3, prog, 55, 52);
    StepJif(tr, i + 4, prog, 24, 700);
  }

  /** How many instructions the handler takes: more for a thread further down the table, and to mark it ready. */
  function SaveLength(m: Machine, t: int): nat
    requires HasEntry(t)
  {
    4 * t + 20 + if m.mem[503 + 10 * t] >= 2 then 0 else 4
  }

  /**
    For every thread, the yield handler saves the return address and the stack pointer in the thread's own table
    entry, makes a running thread ready and leaves a blocked or terminated one as it is, touches no other word but
    its scratch words, and arrives at the scheduler.
   */
  lemma YieldSavesContext(tr: seq<Machine>, i: nat, prog: Program, t: int)
    requires IsTrace(tr, prog) && SavesContext(prog) && HasEntry(t)
    requires i < |tr| && Kernel(tr[i], t, 400) && i + SaveLength(tr[i], t) < |tr|
    ensures var m, m' := tr[i], tr[i + SaveLength(tr[i], t)];
            && Kernel(m', t, 700)
            && m'.mem[504 + 10 * t] == m.mem[4] && m'.mem[505 + 10 * t] == m.mem[1]
            && m'.mem[503 + 10 * t] == (if m.mem[503 + 10 * t] >= 2 then m.mem[503 + 10 * t] else 0)
            && m'.mem[3] == m.mem[3] + SaveLength(m, t)
            && KeptBut(m, m', {503 + 10 * t, 504 + 10 * t, 505 + 10 * t})
  {
    LoadThread(tr, i, prog, t);
    Multiply(tr, i + 4, prog, t, 404, t);
    var k := i + 4 * t + 5;
    CheckState(tr, k, prog, t);
    k := k + 6;
    if tr[i].mem[503 + 10 * t] < 2 {
      MarkReady(tr, k, prog, t);
      k := k + 4;
    }
    SaveCounter(tr, k, prog, t);
    SaveStackPointer(tr, k + 4, prog, t);
  }

  // ---------------------------------------------------------------- restoring

  /** The scheduler has selected thread t and points at its entry. */
  predicate Selected(m: Machine, t: int) {
    Kernel(m, m.mem[22], 780) && HasEntry(t) && m.mem[23] == t && m.mem[53] == 500 + 10 * t
  }

  lemma MarkRunning(tr: seq<Machine>, i: nat, prog: Program, t: int)
    requires IsTrace(tr, prog) && i + 5 < |tr| && MarksRunning(prog) && Selected(tr[i], t)
    ensures var m, m' := tr[i], tr[i + 5];
            && Kernel(m', t, 785) && m'.mem[53] == 503 + 10 * t && m'.mem[503 + 10 * t] == 1
            && m'.mem[3] == m.mem[3] + 5 && KeptBut(m, m', {22, 503 + 10 * t})
  {
    StepCpy(tr, i, prog, 23, 22);
    StepAdd(tr, i + 1, prog, 53, 3);
    StepSet(tr, i + 2, prog, 1, 54);
    StepSet(tr, i + 3, prog, 54, 55);
    StepCpyi2(tr, i + 4, prog, 55, 53);
  }

  lemma LoadStackPointer(tr: seq<Machine>, i: nat, prog: Program, t: int)
    requires IsTrace(tr, prog) && i + 3 < |tr| && LoadsStackPointer(prog) && HasEntry(t)
    requires Kernel(tr[i], t, 785) && tr[i].mem[53] == 503 + 10 * t
    ensures var m, m' := tr[i], tr[i + 3];
            && Kernel(m', t, 788) && m'.mem[53] == 505 + 10 * t && m'.mem[1] == m.mem[505 + 10 * t]
            && m'.mem[3] == m.mem[3] + 3 && KeptBut(m, m', {1})
  {
    StepAdd(tr, i, prog, 53, 2);
    StepCpy(tr, i + 1, prog, 53, 50);
    StepCpyi(tr, i + 2, prog, 50, 1);
  }

  /** The start time is meant to be the instruction count; what is stored is the address of the field itself. */
  lemma StampStart(tr: seq<Machine>, i: nat, prog: Program, t: int)
    requires IsTrace(tr, prog) && i + 5 < |tr| && StampsStart(prog) && HasEntry(t)
    requires Kernel(tr[i], t, 788) && tr[i].mem[53] == 505 + 10 * t
    ensures var m, m' := tr[i], tr[i + 5];
            && Kernel(m', t, 793) && m'.mem[53] == 501 + 10 * t && m'.mem[501 + 10 * t] == 501 + 10 * t
            && m'.mem[3] == m.mem[3] + 5 && KeptBut(m, m', {501 + 10 * t})
  {
    StepAdd(tr, i, prog, 53, -4);
    StepCpy(tr, i + 1, prog, 3, 54);
    StepCpy(tr, i + 2, prog, 53, 50);
    StepSet(tr, i + 3, prog, 50, 55);
    StepCpyi2(tr, i + 4, prog, 55, 50);
  }

  /** A program counter user code can run at. */
  predicate UserAddress(pc: int) { 1000 <= pc < 10000 }

  lemma EnterThread(tr: seq<Machine>, i: nat, prog: Program, t: int)
    requires IsTrace(tr, prog) && i + 4 < |tr| && EntersThread(prog) && HasEntry(t)
    requires Kernel(tr[i], t, 793) && tr[i].mem[53] == 501 + 10 * t && UserAddress(tr[i].mem[504 + 10 * t])
    ensures var m, m' := tr[i], tr[i + 4];
            && !m'.halted && !m'.crashed && !m'.kernel && m'.mem[0] == m.mem[504 + 10 * t]
            && m'.mem[3] == m.mem[3] + 4 && KeptBut(m, m', {19, 200})
  {
    StepAdd(tr, i, prog, 53, 3);
    StepCpyi(tr, i + 1, prog, 53, 19);
    StepAdd(tr, i + 2, prog, 200, 1);
    StepUser(tr, i + 3, prog, 19);
  }

  /** For every selected thread, the activation runs it in user mode at its saved address with its saved stack pointer. */
  lemma ActivationRestoresContext(tr: seq<Machine>, i: nat, prog: Program, t: int)
    requires IsTrace(tr, prog) && i + 17 < |tr| && RestoresContext(prog) && Selected(tr[i], t)
    requires UserAddress(tr[i].mem[504 + 10 * t])
    ensures var m, m' := tr[i], tr[i + 17];
            && !m'.halted && !m'.crashed && !m'.kernel && m'.mem[22] == t
            && m'.mem[0] == m.mem[504 + 10 * t] && m'.mem[1] == m.mem[505 + 10 * t]
            && m'.mem[503 + 10 * t] == 1 && m'.mem[501 + 10 * t] == 501 + 10 * t
            && m'.mem[3] == m.mem[3] + 17
            && KeptBut(m, m', {1, 19, 22, 200, 501 + 10 * t, 503 + 10 * t})
  {
    MarkRunning(tr, i, prog, t);
    LoadStackPointer(tr, i + 5, prog, t);
    StampStart(tr, i + 8, prog, t);
    EnterThread(tr, i + 13, prog, t);
  }

  // ---------------------------------------------------------------- there and back

  /**
    A context switch resumes: a user thread that yields at step i and is activated at some later step j, its table
    entry unchanged meanwhile, continues at the instruction after the yield call with the stack pointer it had.
   */
  lemma YieldThenActivationResumes(tr: seq<Machine>, i: nat, j: nat, prog: Program, t: int)
    requires IsTrace(tr, prog) && SavesContext(prog) && RestoresContext(prog) && HasEntry(t)
    requires i + 1 < |tr| && Ready(tr[i]) && !tr[i].kernel && tr[i].mem[22] == t && tr[i].mem[24] <= 0
    requires AtCall(tr[i], prog, YIELD, []) && 1000 <= tr[i].mem[0] < 9999
    requires var saved := i + 1 + SaveLength(tr[i + 1], t);
             && saved <= j && j + 17 < |tr| && Selected(tr[j], t)
             && tr[j].mem[504 + 10 * t] == tr[saved].mem[504 + 10 * t]
             && tr[j].mem[505 + 10 * t] == tr[saved].mem[505 + 10 * t]
    ensures var m, m' := tr[i], tr[j + 17];
            !m'.halted && !m'.kernel && m'.mem[22] == t && m'.mem[0] == m.mem[0] + 1 && m'.mem[1] == m.mem[1]
  {
    StepYield(tr, i, prog);
    YieldSavesContext(tr, i + 1, prog, t);
    ActivationRestoresContext(tr, j, prog, t);
  }
}
