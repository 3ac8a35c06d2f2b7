/**
  User-mode isolation over whole runs, and the only ways into kernel mode.
 */
module CpuIsolation {
  import opened Cpu

  /** Memory that belongs to the kernel. */
  predicate KernelWord(a: int) { 20 < a < USER_SPACE_START }

  predicate UserState(m: Machine, t: int) {
    !m.kernel && !m.crashed && 0 <= t <= 9 && m.mem[CURRENT_THREAD] == t
  }

  predicate IsSyscall(m: Machine, prog: Program) {
    Executes(m, prog) && prog[m.mem[PC]].op == SYSCALL
  }

  /** Nothing but the listed kernel words differs. */
  ghost predicate KernelWordsKept(m: Machine, m': Machine, except: set<int>) {
    forall a :: KernelWord(a) && a !in except ==> m'.mem[a] == m.mem[a]
  }

  /** No handler except the system call leaves user mode or touches a kernel word. */
  lemma UserHandlerIsolated(m: Machine, instr: Instruction)
    requires !m.kernel && instr.op != SYSCALL
    ensures var e := Handle(m, instr).m;
            !e.kernel && e.crashed == m.crashed && KernelWordsKept(m, e, {})
  {}

  lemma UserStepIsolated(m: Machine, prog: Program, t: int)
    requires UserState(m, t) && !IsSyscall(m, prog)
    ensures var m' := Execute(m, prog);
            && UserState(m', t)
            && KernelWordsKept(m, m', {ThreadEntry(t) + 2})
            && m'.mem[ThreadEntry(t) + 2] == m.mem[ThreadEntry(t) + 2] + (if InOwnBlock(m) then 1 else 0)
  {
    if Executes(m, prog) {
      UserHandlerIsolated(Bump(m), prog[m.mem[PC]]);
    }
  }

  ghost predicate NoSyscalls(m: Machine, prog: Program, n: nat) {
    forall k: nat :: k < n ==> !IsSyscall(Run(m, prog, k), prog)
  }

  ghost function StepsInOwnBlock(m: Machine, prog: Program, n: nat): nat {
    if n == 0 then 0 else StepsInOwnBlock(m, prog, n - 1) + (if InOwnBlock(Run(m, prog, n - 1)) then 1 else 0)
  }

  /**
    A run of any length that makes no system call stays in user mode and leaves all kernel memory as it was,
    except the thread's own instruction counter, which grows by the steps taken inside the thread's block.
   */
  lemma {:induction false} UserRunIsolated(m: Machine, prog: Program, t: int, n: nat)
    requires UserState(m, t) && NoSyscalls(m, prog, n)
    ensures var m' := Run(m, prog, n);
            && UserState(m', t)
            && KernelWordsKept(m, m', {ThreadEntry(t) + 2})
            && m'.mem[ThreadEntry(t) + 2] == m.mem[ThreadEntry(t) + 2] + StepsInOwnBlock(m, prog, n)
  {
    if n > 0 {
      UserRunIsolated(m, prog, t, n - 1);
      UserStepIsolated(Run(m, prog, n - 1), prog, t);
    }
  }

  // ---------------------------------------------------------------- into the kernel

  predicate IsTrap(m: Machine, prog: Program) {
    IsSyscall(m, prog) && (prog[m.mem[PC]].syscall == HALT || prog[m.mem[PC]].syscall == YIELD)
  }

  /** A thread that issues a print call stays confined to the first four words of its own table entry. */
  lemma PrintStepIsolated(m: Machine, prog: Program, t: int)
    requires UserState(m, t) && IsSyscall(m, prog) && prog[m.mem[PC]].syscall == PRN
    ensures var m' := Execute(m, prog);
            && m'.mem[CURRENT_THREAD] == t && !m'.crashed
            && KernelWordsKept(m, m', {ThreadEntry(t) + 1, ThreadEntry(t) + 2, ThreadEntry(t) + 3})
            && (!m'.halted ==> !m'.kernel && m'.mem[PC] == m.mem[PC] + 1 && m'.mem[ThreadEntry(t) + 3] == 2)
  {}

  /** User code reaches a running kernel only through the halt and yield calls, at their entry points. */
  lemma KernelEntry(m: Machine, prog: Program, t: int)
    requires UserState(m, t)
    ensures var m' := Execute(m, prog);
            var pc := m.mem[PC];
            && (m'.kernel && !m'.halted <==> !m.halted && IsTrap(m, prog))
            && (IsTrap(m, prog) ==>
                  var handler := if prog[pc].syscall == HALT then HALT_HANDLER else YIELD_HANDLER;
                  && m'.mem[SAVED_PC] == pc + 1
                  && m'.mem[PC] == (if pc == handler then pc + 1 else handler)
                  && KernelWordsKept(m, m', {ThreadEntry(t) + 2}))
  {}

  ghost predicate NoTraps(m: Machine, prog: Program, n: nat) {
    forall k: nat :: k < n ==> !IsTrap(Run(m, prog, k), prog)
  }

  /** The kernel words a confined thread may change: three fields of its own table entry. */
  function OwnEntry(t: int): set<int> {
    {ThreadEntry(t) + 1, ThreadEntry(t) + 2, ThreadEntry(t) + 3}
  }

  /** Halted, possibly in the middle of a system call, or still in user mode, with the thread unchanged. */
  predicate Confined(m: Machine, t: int) {
    !m.crashed && 0 <= t <= 9 && m.mem[CURRENT_THREAD] == t && (m.halted || !m.kernel)
  }

  lemma ConfinedStep(m: Machine, prog: Program, t: int)
    requires Confined(m, t) && !IsTrap(m, prog)
    ensures Confined(Execute(m, prog), t) && KernelWordsKept(m, Execute(m, prog), OwnEntry(t))
  {
    if !m.halted && !IsSyscall(m, prog) {
      UserStepIsolated(m, prog, t);
    } else if !m.halted && prog[m.mem[PC]].syscall == PRN {
      PrintStepIsolated(m, prog, t);
    }
  }

  lemma KeptTransitive(m: Machine, m1: Machine, m2: Machine, except: set<int>)
    requires KernelWordsKept(m, m1, except) && KernelWordsKept(m1, m2, except)
    ensures KernelWordsKept(m, m2, except)
  {}

  /**
    Print calls and halting included: a run with no halt or yield call is in user mode unless it has halted,
    and of all kernel memory only the thread's own table entry can have changed.
   */
  lemma {:induction false} UserRunConfined(m: Machine, prog: Program, t: int, n: nat)
    requires UserState(m, t) && NoTraps(m, prog, n)
    ensures Confined(Run(m, prog, n), t) && KernelWordsKept(m, Run(m, prog, n), OwnEntry(t))
  {
    if n > 0 {
      UserRunConfined(m, prog, t, n - 1);
      ConfinedStep(Run(m, prog, n - 1), prog, t);
      KeptTransitive(m, Run(m, prog, n - 1), Run(m, prog, n), OwnEntry(t));
    }
  }

  // ---------------------------------------------------------------- violations

  predicate UserWord(a: int) { 0 <= a <= 20 || 1000 <= a < 10000 }

  function Arity(op: Opcode): nat {
    match op
    case PUSH => 1 case POP => 1 case CALL => 1 case RET => 0 case HLT => 0 case USER => 0 case SYSCALL => 0
    case _ => 2
  }

  /** The word an operand points at; a pointer outside memory points at nothing that could be allowed. */
  function Pointee(m: Machine, a: int): int {
    if InMemory(a) then m.mem[a] else -1
  }

  /** The words an instruction with the right operands reads or writes, pointers included. */
  function Touched(m: Machine, instr: Instruction): set<int>
    requires |instr.operands| >= Arity(instr.op)
  {
    var ops := instr.operands;
    match instr.op
    case SET => {ops[1]}
    case CPY => {ops[0], ops[1]}
    case CPYI => {ops[0], ops[1], Pointee(m, ops[0])}
    case CPYI2 => {ops[0], ops[1], Pointee(m, ops[0]), Pointee(m, ops[1])}
    case ADD => {ops[0]}
    case ADDI => {ops[0], ops[1]}
    case SUBI => {ops[0], ops[1]}
    case JIF => {ops[0]}
    case PUSH => {ops[0], m.mem[SP] - 1}
    case POP => {ops[0], m.mem[SP]}
    case CALL => {m.mem[SP] - 1}
    case RET => {m.mem[SP]}
    case _ => {}
  }

  predicate Plain(op: Opcode) { op != HLT && op != USER && op != SYSCALL }

  /** In user mode an instruction is stopped exactly when it touches a word outside user memory or lacks an operand. */
  lemma ViolationHaltsExactlyWhen(m: Machine, prog: Program)
    requires Executes(m, prog) && !m.kernel && Plain(prog[m.mem[PC]].op)
    ensures var instr := prog[m.mem[PC]];
            Execute(m, prog).halted <==>
              || (instr.op != RET && |instr.operands| != Arity(instr.op))
              || exists a :: a in Touched(Bump(m), instr) && !UserWord(a)
  {
    var instr := prog[m.mem[PC]];
    if instr.op == RET || |instr.operands| == Arity(instr.op) {
      HandlerHaltsExactlyWhen(Bump(m), instr);
    }
  }

  lemma HandlerHaltsExactlyWhen(m: Machine, instr: Instruction)
    requires !m.halted && !m.kernel && Plain(instr.op) && (instr.op == RET || |instr.operands| == Arity(instr.op))
    ensures Handle(m, instr).Returned?
    ensures Handle(m, instr).m.halted <==> exists a :: a in Touched(m, instr) && !UserWord(a)
  {
    var ops, t := instr.operands, Touched(m, instr);
    if instr.op == CPY || instr.op == ADDI || instr.op == SUBI {
      assert ops[0] in t && ops[1] in t;
    } else if instr.op == CPYI || instr.op == CPYI2 {
      assert ops[0] in t && ops[1] in t && Pointee(m, ops[0]) in t;
      assert instr.op == CPYI2 ==> Pointee(m, ops[1]) in t;
    } else if instr.op == SET {
      assert ops[1] in t;
    } else if instr.op == ADD || instr.op == JIF {
      assert ops[0] in t;
    } else if instr.op == PUSH || instr.op == POP {
      assert ops[0] in t && (if instr.op == PUSH then m.mem[SP] - 1 else m.mem[SP]) in t;
    } else {
      assert (if instr.op == CALL then m.mem[SP] - 1 else m.mem[SP]) in t;
    }
  }

  /** A step with no instruction at the program counter halts; one with a thread number off the table crashes. */
  lemma StepWithoutInstruction(m: Machine, prog: Program)
    requires !m.halted && !m.crashed
    ensures var m' := Execute(m, prog);
            var t := m.mem[CURRENT_THREAD];
            && (m'.crashed <==> 1000 * t <= m.mem[PC] <= 1000 * t + 999 && !(0 <= 502 + 10 * t < 10000))
            && (!m'.crashed && m.mem[PC] !in prog ==> m'.halted && m'.mem[PC] == m.mem[PC])
  {
    if Executes(m, prog) { HandlersDoNotCrash(Bump(m), prog[m.mem[PC]]); }
  }

  lemma CallsDoNotCrash(m: Machine, instr: Instruction)
    ensures Syscall(m, instr).m.crashed == m.crashed
  {}

  lemma OperationsDoNotCrash(m: Machine, op: Opcode, x: int, y: int)
    ensures TwoOperands(m, op, x, y).m.crashed == m.crashed
  {}

  lemma HandlersDoNotCrash(m: Machine, instr: Instruction)
    ensures Handle(m, instr).m.crashed == m.crashed
  {
    var ops := instr.operands;
    match instr.op {
      case SYSCALL => CallsDoNotCrash(m, instr);
      case PUSH =>
      case POP =>
      case CALL =>
      case RET =>
      case HLT =>
      case USER =>
      case _ => if |ops| == 2 { OperationsDoNotCrash(m, instr.op, ops[0], ops[1]); }
    }
  }

  /** The halt instruction always halts; a mode switch does when its word or the target is out of bounds. */
  lemma SwitchHaltsExactlyWhen(m: Machine, prog: Program)
    requires Executes(m, prog)
    ensures var instr := prog[m.mem[PC]];
            && (instr.op == HLT ==> Execute(m, prog).halted)
            && (instr.op == USER && |instr.operands| == 1 ==>
                  (Execute(m, prog).halted <==>
                     !InMemory(instr.operands[0]) || !UserWord(Bump(m).mem[instr.operands[0]])))
            && (instr.op == USER ==> !Execute(m, prog).kernel)
            && (instr.op == USER && |instr.operands| != 1 ==> !Execute(m, prog).halted)
  {}

  /** A print call of a user thread halts exactly when it names no word of memory; an unknown call always does. */
  lemma CallHaltsExactlyWhen(m: Machine, prog: Program, t: int)
    requires UserState(m, t) && IsSyscall(m, prog)
    ensures var instr := prog[m.mem[PC]];
            Execute(m, prog).halted <==>
              || instr.syscall == UNKNOWN
              || (instr.syscall == PRN && (instr.operands == [] || !InMemory(instr.operands[0])))
  {}

  /** What a print call leaves in the thread's entry: the time of the call and the mark of a blocked thread. */
  lemma PrintStamps(m: Machine, prog: Program, t: int)
    requires UserState(m, t) && IsSyscall(m, prog) && prog[m.mem[PC]].syscall == PRN
    ensures Execute(m, prog).mem[501 + 10 * t] == m.mem[INSTR_COUNT] && Execute(m, prog).mem[503 + 10 * t] == 2
  {}
}
