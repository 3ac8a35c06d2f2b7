/**
  The memory-resident stack simulates an abstract one over whole runs, and every return resumes just after
  its matching call.
 */
module CpuStack {
  import opened Options
  import opened Cpu

  /** An abstract stack element: a pushed value, or the address of the call that pushed its return address. */
  datatype Frame = Data(value: int) | Return(call: int)

  function Word(f: Frame): int {
    match f case Data(v) => v case Return(call) => call + 1
  }

  /** The words from the stack pointer up to base are the abstract stack, top first. */
  ghost predicate Linked(m: Machine, base: int, st: seq<Frame>) {
    && 0 <= base - |st| && base <= MEMORY_SIZE
    && m.mem[SP] == base - |st|
    && forall a {:trigger m.mem[a]} :: base - |st| <= a < base ==> m.mem[a] == Word(st[a - (base - |st|)])
  }

  // ---------------------------------------------------------------- the discipline

  /** Words the machine itself writes: registers, the saved counter, and the thread's table entry. */
  predicate MachineWord(m: Machine, a: int) {
    || a == PC || a == SP || a == INSTR_COUNT || a == SAVED_PC
    || ThreadEntry(m.mem[CURRENT_THREAD]) < a <= ThreadEntry(m.mem[CURRENT_THREAD]) + 3
  }

  /** The address an instruction stores data to, or -1. */
  function DataTarget(m: Machine, instr: Instruction): int {
    var ops := instr.operands;
    match instr.op
    case POP => if |ops| == 1 then ops[0] else -1
    case ADD => if |ops| == 2 then ops[0] else -1
    case ADDI => if |ops| == 2 then ops[0] else -1
    case CPYI2 => if |ops| == 2 && InMemory(ops[1]) then m.mem[ops[1]] else -1
    case SET => if |ops| == 2 then ops[1] else -1
    case CPY => if |ops| == 2 then ops[1] else -1
    case CPYI => if |ops| == 2 then ops[1] else -1
    case SUBI => if |ops| == 2 then ops[1] else -1
    case _ => -1
  }

  ghost predicate Separate(m: Machine, low: int, base: int) {
    forall a :: low <= a < base ==> !MachineWord(m, a)
  }

  /** What the instruction about to run must respect for the stack to be meaningful. */
  ghost predicate Respects(m: Machine, instr: Instruction, base: int, st: seq<Frame>) {
    var sp := m.mem[SP];
    && DataTarget(m, instr) != PC && DataTarget(m, instr) != SP && !(sp <= DataTarget(m, instr) < base)
    && (instr.op == POP || instr.op == RET ==> st != [])
    && (instr.op == PUSH || instr.op == CALL ==> sp - 1 < 0 || !MachineWord(m, sp - 1))
    && (instr.op == CALL && |instr.operands| == 1 ==> instr.operands[0] != m.mem[PC])
    && (instr.op == RET && InMemory(sp) ==> m.mem[sp] != m.mem[PC])
    && (IsPrint(instr) ==> !PrintLosesStackPointer(m))
  }

  predicate IsPrint(instr: Instruction) {
    instr.op == SYSCALL && instr.syscall == PRN
  }

  /** Thread number -50 puts its table entry on the registers, and a print call stores 2 in the stack pointer. */
  predicate PrintLosesStackPointer(m: Machine) {
    ThreadEntry(m.mem[CURRENT_THREAD]) + 1 == SP && m.mem[SP] != 2
  }

  ghost predicate Disciplined(m: Machine, prog: Program, base: int, st: seq<Frame>) {
    && Separate(m, base - |st|, base)
    && (Executes(m, prog) ==> Separate(Bump(m), base - |st|, base) && Respects(Bump(m), prog[m.mem[PC]], base, st))
  }

  /** The abstract stack after a step; a step that halts leaves it alone. */
  ghost function NextStack(m: Machine, prog: Program, st: seq<Frame>): seq<Frame> {
    if !Executes(m, prog) then st
    else HandledStack(Bump(m), prog[m.mem[PC]], st)
  }

  ghost function HandledStack(m: Machine, instr: Instruction, st: seq<Frame>): seq<Frame> {
    var e := Handle(m, instr);
    if e.Thrown? || e.m.halted then st
    else
      match instr.op
      case PUSH => [Data(m.mem[instr.operands[0]])] + st
      case CALL => [Return(m.mem[PC])] + st
      case POP => if st == [] then st else st[1..]
      case RET => if st == [] then st else st[1..]
      case _ => st
  }

  // ---------------------------------------------------------------- one step

  /** The stack survives any change confined to machine words other than the stack pointer. */
  lemma LinkedFrame(m: Machine, m': Machine, base: int, st: seq<Frame>)
    requires Linked(m, base, st) && Separate(m, base - |st|, base) && m'.mem[SP] == m.mem[SP]
    requires forall a :: base - |st| <= a < base && !MachineWord(m, a) ==> m'.mem[a] == m.mem[a]
    ensures Linked(m', base, st)
  {}

  lemma BumpKeepsLinked(m: Machine, base: int, st: seq<Frame>)
    requires Linked(m, base, st) && Separate(m, base - |st|, base)
    ensures Linked(Bump(m), base, st)
  {
    CounterIsNoRegister(m);
    LinkedFrame(m, Bump(m), base, st);
  }

  /** Thread counters sit at addresses ending in 2, so none is a register. */
  lemma CounterIsNoRegister(m: Machine)
    ensures CounterOf(m) !in {PC, SP, INSTR_COUNT, SAVED_PC}
  {}

  lemma PushLinks(m: Machine, v: int, f: Frame, base: int, st: seq<Frame>)
    requires Linked(m, base, st) && v == Word(f) && !m.halted && !Push(m, v).m.halted
    requires m.mem[SP] - 1 != SP && Separate(m, base - |st|, base)
    ensures Linked(Push(m, v).m, base, [f] + st)
  {
    var e := Push(m, v).m;
    var sp := m.mem[SP] - 1;
    forall a | sp <= a < base ensures e.mem[a] == Word(([f] + st)[a - sp]) {
      if a != sp { assert !MachineWord(m, a); }
    }
  }

  lemma PopUnlinks(m: Machine, m': Machine, base: int, st: seq<Frame>)
    requires Linked(m, base, st) && Separate(m, base - |st|, base) && st != [] && m'.mem[SP] == m.mem[SP] + 1
    requires forall a :: base - |st| <= a < base && !MachineWord(m, a) ==> m'.mem[a] == m.mem[a]
    ensures Linked(m', base, st[1..])
  {}

  lemma CallLinks(m: Machine, target: int, base: int, st: seq<Frame>)
    requires Linked(m, base, st) && Separate(m, base - |st|, base) && !m.halted && !Call(m, target).m.halted
    requires !MachineWord(m, m.mem[SP] - 1)
    ensures Linked(Call(m, target).m, base, [Return(m.mem[PC])] + st)
  {}

  /** System calls write only machine words, and but for one print call never the stack pointer. */
  lemma SyscallKeepsLinked(m: Machine, instr: Instruction, base: int, st: seq<Frame>)
    requires Linked(m, base, st) && Separate(m, base - |st|, base)
    requires instr.syscall == PRN ==> !PrintLosesStackPointer(m)
    ensures Linked(Syscall(m, instr).m, base, st)
  {
    LinkedFrame(m, Syscall(m, instr).m, base, st);
  }

  lemma TwoOperandsKeepLinked(m: Machine, instr: Instruction, base: int, st: seq<Frame>)
    requires Linked(m, base, st) && Separate(m, base - |st|, base) && |instr.operands| == 2
    requires instr.op in {SET, CPY, CPYI, CPYI2, ADD, ADDI, SUBI, JIF}
    requires DataTarget(m, instr) != SP && !(m.mem[SP] <= DataTarget(m, instr) < base)
    ensures Linked(TwoOperands(m, instr.op, instr.operands[0], instr.operands[1]).m, base, st)
  {
    LinkedFrame(m, TwoOperands(m, instr.op, instr.operands[0], instr.operands[1]).m, base, st);
  }

  lemma PushingKeepsLinked(m: Machine, instr: Instruction, base: int, st: seq<Frame>)
    requires Linked(m, base, st) && Separate(m, base - |st|, base) && Respects(m, instr, base, st) && !m.halted
    requires instr.op == PUSH || instr.op == CALL
    ensures Linked(Handle(m, instr).m, base, HandledStack(m, instr, st))
  {
    var ops := instr.operands;
    if |ops| == 1 && !Handle(m, instr).m.halted {
      if instr.op == PUSH {
        PushLinks(m, m.mem[ops[0]], Data(m.mem[ops[0]]), base, st);
      } else {
        CallLinks(m, ops[0], base, st);
      }
    }
  }

  lemma PoppingKeepsLinked(m: Machine, instr: Instruction, base: int, st: seq<Frame>)
    requires Linked(m, base, st) && Separate(m, base - |st|, base) && Respects(m, instr, base, st) && !m.halted
    requires instr.op == POP || instr.op == RET
    ensures Linked(Handle(m, instr).m, base, HandledStack(m, instr, st))
  {
    if Handle(m, instr).Returned? && !Handle(m, instr).m.halted {
      PopUnlinks(m, Handle(m, instr).m, base, st);
    }
  }

  lemma HandlerKeepsLinked(m: Machine, instr: Instruction, base: int, st: seq<Frame>)
    requires Linked(m, base, st) && Separate(m, base - |st|, base) && Respects(m, instr, base, st)
    requires !m.halted
    ensures Linked(Handle(m, instr).m, base, HandledStack(m, instr, st))
  {
    match instr.op {
      case PUSH => PushingKeepsLinked(m, instr, base, st);
      case CALL => PushingKeepsLinked(m, instr, base, st);
      case POP => PoppingKeepsLinked(m, instr, base, st);
      case RET => PoppingKeepsLinked(m, instr, base, st);
      case SYSCALL => SyscallKeepsLinked(m, instr, base, st);
      case USER => LinkedFrame(m, User(m, instr.operands).m, base, st);
      case HLT =>
      case _ => if |instr.operands| == 2 { TwoOperandsKeepLinked(m, instr, base, st); }
    }
  }

  /** A handler moves the top of the stack by at most one word and never onto a register. */
  lemma HandledStackSeparate(m: Machine, instr: Instruction, base: int, st: seq<Frame>)
    requires Linked(m, base, st) && Separate(m, base - |st|, base) && Respects(m, instr, base, st)
    ensures var st' := HandledStack(m, instr, st);
            forall a :: base - |st'| <= a < base ==> !MachineWord(m, a)
  {}

  lemma AdvanceKeepsLinked(m: Machine, e: Machine, pc: int, base: int, st: seq<Frame>)
    requires Linked(e, base, st) && Separate(m, base - |st|, base)
    ensures Linked(Advance(e, pc), base, st)
  {
    forall a | base - |st| <= a < base ensures Advance(e, pc).mem[a] == e.mem[a] { assert !MachineWord(m, a); }
  }

  /** One disciplined step keeps memory and abstract stack in correspondence. */
  lemma StepKeepsLinked(m: Machine, prog: Program, base: int, st: seq<Frame>)
    requires Linked(m, base, st) && Disciplined(m, prog, base, st)
    ensures Linked(Execute(m, prog), base, NextStack(m, prog, st))
  {
    BumpKeepsLinked(m, base, st);
    if Executes(m, prog) {
      var b, instr := Bump(m), prog[m.mem[PC]];
      HandlerKeepsLinked(b, instr, base, st);
      HandledStackSeparate(b, instr, base, st);
      AdvanceKeepsLinked(b, Handle(b, instr).m, m.mem[PC], base, HandledStack(b, instr, st));
    }
  }

  // ---------------------------------------------------------------- whole runs

  /** A machine together with its abstract stack. */
  datatype Config = Config(m: Machine, st: seq<Frame>)

  ghost predicate StepsTo(c: Config, c': Config, prog: Program) {
    c'.m == Execute(c.m, prog) && c'.st == NextStack(c.m, prog, c.st)
  }

  /** A run of the simulator: each state is one execution step after the one before. */
  ghost predicate IsRun(run: seq<Config>, prog: Program) {
    run != [] && forall k :: 0 <= k < |run| - 1 ==> StepsTo(run[k], run[k + 1], prog)
  }

  ghost predicate DisciplinedRun(run: seq<Config>, prog: Program, base: int) {
    IsRun(run, prog) && forall k :: 0 <= k < |run| - 1 ==> Disciplined(run[k].m, prog, base, run[k].st)
  }

  /** In every state of a disciplined run, memory from SP to base is the stack of values not yet popped. */
  lemma {:induction false} StackSimulation(run: seq<Config>, prog: Program, base: int, k: nat)
    requires DisciplinedRun(run, prog, base) && Linked(run[0].m, base, run[0].st) && k < |run|
    ensures Linked(run[k].m, base, run[k].st)
  {
    if k > 0 {
      StackSimulation(run, prog, base, k - 1);
      StepsToKeepsLinked(run[k - 1], run[k], prog, base);
    }
  }

  lemma StepsToKeepsLinked(c: Config, c': Config, prog: Program, base: int)
    requires Linked(c.m, base, c.st) && Disciplined(c.m, prog, base, c.st) && StepsTo(c, c', prog)
    ensures Linked(c'.m, base, c'.st)
  {
    StepKeepsLinked(c.m, prog, base, c.st);
  }

  predicate Completes(m: Machine, prog: Program, op: Opcode) {
    Executes(m, prog) && prog[m.mem[PC]].op == op && !Execute(m, prog).halted
  }

  /** A return pops the top frame and continues at its word; over a call's frame, just after that call. */
  lemma ReturnResumes(c: Config, c': Config, prog: Program, base: int)
    requires Linked(c.m, base, c.st) && Disciplined(c.m, prog, base, c.st) && StepsTo(c, c', prog)
    requires Completes(c.m, prog, RET)
    ensures c.st != [] && c'.st == c.st[1..] && c'.m.mem[PC] == Word(c.st[0])
  {
    BumpKeepsLinked(c.m, base, c.st);
    CounterIsNoRegister(c.m);
  }

  lemma CallPushes(c: Config, c': Config, prog: Program)
    requires StepsTo(c, c', prog) && Completes(c.m, prog, CALL)
    ensures c'.st == [Return(c.m.mem[PC])] + c.st
  {}

  /**
    The print call keeps the stack pointer exactly when the thread number, as the instruction counter leaves
    it, is not -50 or the stack pointer was 2 already.
   */
  lemma PrintKeepsStackPointerExactlyWhen(m: Machine, prog: Program)
    requires Executes(m, prog) && IsPrint(prog[m.mem[PC]])
    ensures Execute(m, prog).mem[SP] == m.mem[SP] <==> !PrintLosesStackPointer(Bump(m))
  {}

  /** A concrete loss: thread -50 prints with its stack pointer at 9000 and finds it at 2. */
  lemma ThreadMinusFiftyLosesStackPointer(m: Machine, prog: Program)
    requires m.mem[CURRENT_THREAD] == -50 && m.mem[SP] == 9000 && m.mem[PC] == 1000 && !m.halted && !m.crashed
    requires prog == map[1000 := Instruction(SYSCALL, PRN, [2000])]
    ensures Execute(m, prog).mem[SP] == 2
  {}

  // ---------------------------------------------------------------- jumps

  /** Where the instruction about to run sends the program counter, if it jumps. */
  function JumpTarget(m: Machine, instr: Instruction): Option<int> {
    var ops := instr.operands;
    match instr.op
    case CALL => if |ops| == 1 then Some(ops[0]) else None
    case RET => if InMemory(m.mem[SP]) then Some(m.mem[m.mem[SP]]) else None
    case JIF => if |ops| == 2 && InMemory(ops[0]) && m.mem[ops[0]] <= 0 then Some(ops[1]) else None
    case USER => if |ops| == 1 && InMemory(ops[0]) then Some(m.mem[ops[0]]) else None
    case SYSCALL =>
      if instr.syscall == HALT then Some(HALT_HANDLER)
      else if instr.syscall == YIELD then Some(YIELD_HANDLER) else None
    case _ => None
  }

  predicate Continues(m: Machine, prog: Program) {
    Executes(m, prog) && !Execute(m, prog).halted
  }

  /**
    "Program counter unchanged" is decided by value, so a call, return, conditional jump, mode switch or trap
    arrives at its target exactly when the target is not the jump itself; a jump to its own address falls through.
   */
  lemma JumpArrivesExactlyWhen(m: Machine, prog: Program)
    requires Continues(m, prog) && JumpTarget(Bump(m), prog[m.mem[PC]]).Some?
    ensures var target := JumpTarget(Bump(m), prog[m.mem[PC]]).value;
            && (Execute(m, prog).mem[PC] == target <==> target != m.mem[PC])
            && (target == m.mem[PC] ==> Execute(m, prog).mem[PC] == m.mem[PC] + 1)
  {}

  /** A concrete jump to itself: the conditional jump at 1000 back to 1000 continues at 1001. */
  lemma JumpToItselfFallsThrough(m: Machine, prog: Program)
    requires m.mem[PC] == 1000 && m.mem[2000] == 0 && m.mem[CURRENT_THREAD] == 1 && !m.halted && !m.crashed
    requires prog == map[1000 := Instruction(JIF, UNKNOWN, [2000, 1000])]
    ensures Execute(m, prog).mem[PC] == 1001
  {}

  /** Everything else moves on to the next instruction, unless it stores into the program counter. */
  lemma OthersFallThrough(m: Machine, prog: Program)
    requires Continues(m, prog) && JumpTarget(Bump(m), prog[m.mem[PC]]) == None
    requires DataTarget(Bump(m), prog[m.mem[PC]]) != PC && (prog[m.mem[PC]].op == PUSH ==> m.mem[SP] - 1 != PC)
    ensures Execute(m, prog).mem[PC] == m.mem[PC] + 1
  {}

  ghost predicate EndsWith(st: seq<Frame>, bottom: seq<Frame>) {
    |st| >= |bottom| && st[|st| - |bottom|..] == bottom
  }

  /** One step pushes one frame, pops one frame, or leaves the stack alone. */
  ghost predicate Adjacent(st: seq<Frame>, st': seq<Frame>) {
    st' == st || (st' != [] && st'[1..] == st) || (st != [] && st' == st[1..])
  }

  lemma StepIsAdjacent(c: Config, c': Config, prog: Program)
    requires StepsTo(c, c', prog)
    ensures Adjacent(c.st, c'.st)
  {}

  /** While the stack stays at least as high as it was at step i, what it held then stays in place. */
  lemma {:induction false} BottomStays(stacks: seq<seq<Frame>>, i: nat, j: nat)
    requires i <= j < |stacks| && forall k :: 0 <= k < |stacks| - 1 ==> Adjacent(stacks[k], stacks[k + 1])
    requires forall k :: i <= k <= j ==> |stacks[k]| >= |stacks[i]|
    ensures EndsWith(stacks[j], stacks[i])
    decreases j
  {
    if i < j {
      BottomStays(stacks, i, j - 1);
      assert Adjacent(stacks[j - 1], stacks[j - 1 + 1]);
    }
  }

  /**
    Call and return match over whole runs: if a call completes at step i, the stack never falls below the
    frame it pushed up to step j, and at step j a return completes at that same height, then the return
    continues at the instruction after the call, with the stack as it was before the call.
   */
  lemma ReturnMatchesCall(run: seq<Config>, prog: Program, base: int, i: nat, j: nat)
    requires DisciplinedRun(run, prog, base) && Linked(run[0].m, base, run[0].st) && i < j < |run| - 1
    requires Completes(run[i].m, prog, CALL) && Completes(run[j].m, prog, RET)
    requires forall k :: i + 1 <= k <= j ==> |run[k].st| >= |run[i + 1].st|
    requires |run[j].st| == |run[i + 1].st|
    ensures run[j + 1].m.mem[PC] == run[i].m.mem[PC] + 1
    ensures run[j + 1].st == run[i].st
  {
    CallPushes(run[i], run[i + 1], prog);
    var stacks := seq(|run|, k requires 0 <= k < |run| => run[k].st);
    forall k | 0 <= k < |stacks| - 1 ensures Adjacent(stacks[k], stacks[k + 1]) {
      StepIsAdjacent(run[k], run[k + 1], prog);
    }
    BottomStays(stacks, i + 1, j);
    StackSimulation(run, prog, base, j);
    ReturnResumes(run[j], run[j + 1], prog, base);
  }
}
