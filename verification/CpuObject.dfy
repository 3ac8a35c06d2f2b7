/**
  The simulator object: memory, flags and the loaded program, with handlers that update them step by step,
  proved equal to the machine functions.
 */
module CpuObject {
  import opened Cpu

  class CPU {
    var instructions: Program
    var memory: Memory
    var halted: bool
    var kernelMode: bool
    var crashed: bool

    ghost function State(): Machine
      reads this
    {
      Machine(memory, halted, kernelMode, crashed)
    }

    constructor ()
      ensures State() == Machine(seq(MEMORY_SIZE, _ => 0), false, true, false) && instructions == map[]
    {
      instructions := map[];
      memory := seq(MEMORY_SIZE, _ => 0);
      halted, kernelMode, crashed := false, true, false;
    }

    method ExecuteTwoOperands(op: Opcode, x: int, y: int) returns (threw: bool)
      modifies this`memory, this`halted
      ensures (if threw then Thrown(State()) else Returned(State())) == TwoOperands(old(State()), op, x, y)
    {
      threw := false;
      var source, target, value := x, y, 0;
      match op {
        case SET => source := y;
        case ADD => target := x;
        case ADDI => source, target := y, x;
        case JIF => target := x;
        case CPY => case CPYI => case CPYI2 => case SUBI =>
        case _ => return true;
      }
      if !Accessible(source, kernelMode) || !Accessible(target, kernelMode) {
        halted := true;
        return;
      }
      if op == JIF {
        if memory[x] <= 0 { memory := memory[PC := y]; }
        return;
      }
      if (op == CPYI || op == CPYI2) && !Accessible(memory[x], kernelMode) {
        halted := true;
        return;
      }
      if op == CPYI2 {
        target := memory[y];
        if !Accessible(target, kernelMode) {
          halted := true;
          return;
        }
      }
      value := if op == SET then x
               else if op == CPY then memory[x]
               else if op == ADD then memory[x] + y
               else if op == ADDI then memory[x] + memory[y]
               else if op == SUBI then memory[x] - memory[y]
               else memory[memory[x]];
      memory := memory[target := value];
    }

    method ExecutePush(value: int)
      modifies this`memory, this`halted
      ensures Returned(State()) == Push(old(State()), value)
    {
      var sp := memory[SP] - 1;
      if !Accessible(sp, kernelMode) {
        halted := true;
        return;
      }
      memory := memory[sp := value];
      memory := memory[SP := sp];
    }

    method ExecutePop(address: int)
      modifies this`memory, this`halted
      ensures Returned(State()) == Pop(old(State()), address)
    {
      if !Accessible(address, kernelMode) {
        halted := true;
        return;
      }
      var sp := memory[SP];
      if !Accessible(sp, kernelMode) {
        halted := true;
        return;
      }
      memory := memory[address := memory[sp]];
      memory := memory[SP := sp + 1];
    }

    method ExecuteCall(target: int)
      requires !halted
      modifies this`memory, this`halted
      ensures Returned(State()) == Call(old(State()), target)
    {
      ExecutePush(memory[PC] + 1);
      if !halted { memory := memory[PC := target]; }
    }

    method ExecuteRet()
      modifies this`memory, this`halted
      ensures Returned(State()) == Ret(old(State()))
    {
      var sp := memory[SP];
      if !Accessible(sp, kernelMode) {
        halted := true;
        return;
      }
      memory := memory[PC := memory[sp]];
      memory := memory[SP := sp + 1];
    }

    method ExecuteUser(operands: seq<int>)
      modifies this`memory, this`halted, this`kernelMode
      ensures Returned(State()) == User(old(State()), operands)
    {
      kernelMode := false;
      if |operands| == 1 {
        var a := operands[0];
        if !Accessible(a, true) || !Accessible(memory[a], false) {
          halted := true;
          return;
        }
        memory := memory[PC := memory[a]];
      }
    }

    method ExecuteSyscall(instr: Instruction) returns (threw: bool)
      modifies this`memory, this`halted, this`kernelMode
      ensures (if threw then Thrown(State()) else Returned(State())) == Syscall(old(State()), instr)
    {
      threw := false;
      kernelMode := true;
      match instr.syscall {
        case PRN =>
          var entry := ThreadEntry(memory[CURRENT_THREAD]);
          if !InMemory(entry + 3) { return true; }
          memory := memory[entry + 3 := 2];
          if !InMemory(entry + 1) { return true; }
          memory := memory[entry + 1 := memory[INSTR_COUNT]];
          memory := memory[PC := memory[PC] + 1];
          if |instr.operands| == 0 || !InMemory(instr.operands[0]) { return true; }
          kernelMode := false;
        case HALT =>
          memory := memory[SAVED_PC := memory[PC] + 1];
          memory := memory[PC := HALT_HANDLER];
        case YIELD =>
          memory := memory[SAVED_PC := memory[PC] + 1];
          memory := memory[PC := YIELD_HANDLER];
        case UNKNOWN =>
          halted := true;
      }
    }

    method Dispatch(instr: Instruction) returns (threw: bool)
      requires !halted
      modifies this`memory, this`halted, this`kernelMode
      ensures (if threw then Thrown(State()) else Returned(State())) == Handle(old(State()), instr)
    {
      threw := false;
      var ops := instr.operands;
      match instr.op {
        case PUSH =>
          if |ops| != 1 { return true; }
          if !Accessible(ops[0], kernelMode) {
            halted := true;
            return;
          }
          ExecutePush(memory[ops[0]]);
        case POP =>
          if |ops| != 1 { return true; }
          ExecutePop(ops[0]);
        case CALL =>
          if |ops| != 1 { return true; }
          ExecuteCall(ops[0]);
        case RET => ExecuteRet();
        case HLT => halted := true;
        case USER => ExecuteUser(ops);
        case SYSCALL => threw := ExecuteSyscall(instr);
        case _ =>
          if |ops| != 2 { return true; }
          threw := ExecuteTwoOperands(instr.op, ops[0], ops[1]);
      }
    }

    /** The thread counter at the head of the execution loop. */
    method CountThread(pc: int)
      requires pc == memory[PC] && !crashed
      modifies this`memory, this`crashed
      ensures State() == Bump(old(State()))
    {
      var thread := memory[CURRENT_THREAD];
      if 1000 * thread <= pc <= 1000 * (thread + 1) - 1 {
        var counter := ThreadEntry(thread) + 2;
        if !InMemory(counter) {
          crashed := true;
          return;
        }
        memory := memory[counter := memory[counter] + 1];
      }
    }

    /** The instruction count and the program counter at its foot. */
    method Finish(pc: int)
      modifies this`memory
      ensures State() == Advance(old(State()), pc)
    {
      memory := memory[INSTR_COUNT := memory[INSTR_COUNT] + 1];
      if memory[PC] == pc { memory := memory[PC := pc + 1]; }
    }

    /** One call of the execution loop. */
    method Step()
      requires !crashed
      modifies this`memory, this`halted, this`kernelMode, this`crashed
      ensures State() == Execute(old(State()), instructions)
    {
      var pc := memory[PC];
      CountThread(pc);
      if crashed || halted { return; }
      if pc !in instructions {
        halted := true;
        return;
      }
      var threw := Dispatch(instructions[pc]);
      if threw {
        halted := true;
        return;
      }
      Finish(pc);
    }

    /** Load data and program, then reset the registers; an address outside memory stops the load where it is. */
    method LoadProgram(prog: Program, data: seq<(nat, int)>) returns (loaded: bool)
      modifies this
      ensures instructions == prog && crashed == old(crashed)
      ensures loaded <==> ValidPrefix(data) == |data|
      ensures loaded ==> !halted && kernelMode
      ensures loaded ==> memory == Loaded(old(memory), data)[SYSCALL_RESULT := 0][INSTR_COUNT := 0][PC := 0]
      ensures !loaded ==> halted == old(halted) && kernelMode == old(kernelMode)
      ensures !loaded ==> memory == Loaded(old(memory), data[..ValidPrefix(data)])
    {
      instructions := prog;
      for i := 0 to |data|
        invariant instructions == prog && crashed == old(crashed)
        invariant halted == old(halted) && kernelMode == old(kernelMode)
        invariant i <= ValidPrefix(data)
        invariant memory == Loaded(old(memory), data[..i])
      {
        if !InMemory(data[i].0) { return false; }
        assert data[..i + 1][..i] == data[..i];
        memory := memory[data[i].0 := data[i].1];
      }
      assert data[..|data|] == data;
      halted, kernelMode := false, true;
      memory := memory[SYSCALL_RESULT := 0][INSTR_COUNT := 0][PC := 0];
      return true;
    }
  }

  /** How many entries come before the first address outside memory. */
  function ValidPrefix(data: seq<(nat, int)>): (n: nat)
    ensures n <= |data| && forall i :: 0 <= i < n ==> InMemory(data[i].0)
    ensures n < |data| ==> !InMemory(data[n].0)
  {
    if data == [] || !InMemory(data[0].0) then 0 else 1 + ValidPrefix(data[1..])
  }

  /** Memory after storing a data segment in order; later entries win. */
  function Loaded(mem: Memory, data: seq<(nat, int)>): Memory {
    if data == [] then mem
    else
      var m := Loaded(mem, data[..|data| - 1]);
      var (a, v) := data[|data| - 1];
      if InMemory(a) then m[a := v] else m
  }
}
