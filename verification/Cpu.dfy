/**
  The CPU simulator as a function on machine states: 10000 memory words, of which word 0 is the program
  counter, word 1 the stack pointer and word 3 the instruction count, a halted flag and a mode flag.
  Words are unbounded integers.
 */
module Cpu {

  const MEMORY_SIZE := 10000
  const USER_SPACE_START := 1000
  const PC := 0
  const SP := 1
  const SYSCALL_RESULT := 2
  const INSTR_COUNT := 3
  const SAVED_PC := 4
  const CURRENT_THREAD := 22
  const THREAD_TABLE := 500

  datatype Opcode =
    SET | CPY | CPYI | CPYI2 | ADD | ADDI | SUBI | JIF | PUSH | POP | CALL | RET | HLT | USER | SYSCALL

  datatype SyscallType = PRN | HALT | YIELD | UNKNOWN

  datatype Instruction = Instruction(op: Opcode, syscall: SyscallType, operands: seq<int>)

  type Program = map<int, Instruction>

  type Memory = m: seq<int> | |m| == MEMORY_SIZE witness seq(MEMORY_SIZE, _ => 0)

  /** `crashed` is an exception no handler catches, raised by the thread counter of a bad thread number. */
  datatype Machine = Machine(mem: Memory, halted: bool, kernel: bool, crashed: bool)

  /** How a handler ends: by returning, or by an exception that the execution loop turns into a halt. */
  datatype Effect = Returned(m: Machine) | Thrown(m: Machine)

  predicate InMemory(a: int) { 0 <= a < MEMORY_SIZE }

  predicate Accessible(a: int, kernel: bool) {
    if kernel then InMemory(a) else (a <= 20 || a >= USER_SPACE_START) && InMemory(a)
  }

  function Write(m: Machine, a: int, v: int): Machine
    requires InMemory(a)
  {
    m.(mem := m.mem[a := v])
  }

  function Violation(m: Machine): Effect { Returned(m.(halted := true)) }

  /** Store v at a when the mode allows it. */
  function Store(m: Machine, a: int, v: int): Effect {
    if Accessible(a, m.kernel) then Returned(Write(m, a, v)) else Violation(m)
  }

  // ---------------------------------------------------------------- the handlers

  function TwoOperands(m: Machine, op: Opcode, x: int, y: int): Effect {
    var k := m.kernel;
    match op
    case SET => Store(m, y, x)
    case CPY => if Accessible(x, k) && Accessible(y, k) then Store(m, y, m.mem[x]) else Violation(m)
    case CPYI =>
      if Accessible(x, k) && Accessible(y, k) && Accessible(m.mem[x], k) then Store(m, y, m.mem[m.mem[x]])
      else Violation(m)
    case CPYI2 =>
      if Accessible(x, k) && Accessible(y, k) && Accessible(m.mem[x], k) && Accessible(m.mem[y], k)
      then Store(m, m.mem[y], m.mem[m.mem[x]])
      else Violation(m)
    case ADD => if Accessible(x, k) then Store(m, x, m.mem[x] + y) else Violation(m)
    case ADDI => if Accessible(x, k) && Accessible(y, k) then Store(m, x, m.mem[x] + m.mem[y]) else Violation(m)
    case SUBI => if Accessible(x, k) && Accessible(y, k) then Store(m, y, m.mem[x] - m.mem[y]) else Violation(m)
    case JIF =>
      if !Accessible(x, k) then Violation(m)
      else if m.mem[x] <= 0 then Returned(Write(m, PC, y)) else Returned(m)
    case _ => Thrown(m)
  }

  function Push(m: Machine, v: int): Effect {
    var sp := m.mem[SP] - 1;
    if Accessible(sp, m.kernel) then Returned(Write(Write(m, sp, v), SP, sp)) else Violation(m)
  }

  function Pop(m: Machine, a: int): Effect {
    var sp := m.mem[SP];
    if Accessible(a, m.kernel) && Accessible(sp, m.kernel)
    then Returned(Write(Write(m, a, m.mem[sp]), SP, sp + 1)) else Violation(m)
  }

  function Call(m: Machine, target: int): Effect {
    var e := Push(m, m.mem[PC] + 1);
    if e.m.halted then e else Returned(Write(e.m, PC, target))
  }

  function Ret(m: Machine): Effect {
    var sp := m.mem[SP];
    if Accessible(sp, m.kernel) then Returned(Write(Write(m, PC, m.mem[sp]), SP, sp + 1)) else Violation(m)
  }

  function User(m: Machine, operands: seq<int>): Effect {
    var u := m.(kernel := false);
    if |operands| != 1 then Returned(u)
    else if !Accessible(operands[0], true) then Violation(u)
    else if !Accessible(m.mem[operands[0]], false) then Violation(u)
    else Returned(Write(u, PC, m.mem[operands[0]]))
  }

  function ThreadEntry(t: int): int { THREAD_TABLE + 10 * t }

  /** The print call blocks the thread in its table entry, steps past the call and returns to user mode. */
  function Print(m: Machine, operands: seq<int>): Effect {
    var k := m.(kernel := true);
    var entry := ThreadEntry(k.mem[CURRENT_THREAD]);
    if !InMemory(entry + 3) then Thrown(k) else
    var blocked := Write(k, entry + 3, 2);
    if !InMemory(entry + 1) then Thrown(blocked) else
    var stamped := Write(blocked, entry + 1, blocked.mem[INSTR_COUNT]);
    var stepped := Write(stamped, PC, stamped.mem[PC] + 1);
    if |operands| == 0 || !InMemory(operands[0]) then Thrown(stepped)
    else Returned(stepped.(kernel := false))
  }

  function Trap(m: Machine, handler: int): Effect {
    var saved := Write(m.(kernel := true), SAVED_PC, m.mem[PC] + 1);
    Returned(Write(saved, PC, handler))
  }

  const HALT_HANDLER := 430
  const YIELD_HANDLER := 400

  function Syscall(m: Machine, instr: Instruction): Effect {
    match instr.syscall
    case PRN => Print(m, instr.operands)
    case HALT => Trap(m, HALT_HANDLER)
    case YIELD => Trap(m, YIELD_HANDLER)
    case UNKNOWN => Violation(m.(kernel := true))
  }

  function Handle(m: Machine, instr: Instruction): Effect {
    var ops := instr.operands;
    match instr.op
    case PUSH =>
      if |ops| != 1 then Thrown(m)
      else if !Accessible(ops[0], m.kernel) then Violation(m)
      else Push(m, m.mem[ops[0]])
    case POP => if |ops| != 1 then Thrown(m) else Pop(m, ops[0])
    case CALL => if |ops| != 1 then Thrown(m) else Call(m, ops[0])
    case RET => Ret(m)
    case HLT => Returned(m.(halted := true))
    case USER => User(m, ops)
    case SYSCALL => Syscall(m, instr)
    case _ => if |ops| != 2 then Thrown(m) else TwoOperands(m, instr.op, ops[0], ops[1])
  }

  // ---------------------------------------------------------------- one execution step

  /** The program counter lies in the block of the current thread. */
  predicate InOwnBlock(m: Machine) {
    var t := m.mem[CURRENT_THREAD];
    1000 * t <= m.mem[PC] <= 1000 * (t + 1) - 1
  }

  function CounterOf(m: Machine): int { ThreadEntry(m.mem[CURRENT_THREAD]) + 2 }

  /** The thread's instruction counter, updated before anything else. */
  function Bump(m: Machine): Machine {
    if !InOwnBlock(m) then m
    else if !InMemory(CounterOf(m)) then m.(crashed := true)
    else Write(m, CounterOf(m), m.mem[CounterOf(m)] + 1)
  }

  /** After a handler returns: count the instruction and advance a program counter that did not change. */
  function Advance(m: Machine, pc: int): Machine {
    var counted := Write(m, INSTR_COUNT, m.mem[INSTR_COUNT] + 1);
    if counted.mem[PC] == pc then Write(counted, PC, pc + 1) else counted
  }

  function Execute(m: Machine, prog: Program): Machine {
    var pc := m.mem[PC];
    var b := Bump(m);
    if b.crashed || b.halted then b
    else if pc !in prog then b.(halted := true)
    else
      match Handle(b, prog[pc])
      case Thrown(e) => e.(halted := true)
      case Returned(e) => Advance(e, pc)
  }

  function Run(m: Machine, prog: Program, n: nat): Machine {
    if n == 0 then m else Execute(Run(m, prog, n - 1), prog)
  }

  /** The instruction a step executes, if it executes one. */
  predicate Executes(m: Machine, prog: Program) {
    !m.halted && !Bump(m).crashed && m.mem[PC] in prog
  }
}
