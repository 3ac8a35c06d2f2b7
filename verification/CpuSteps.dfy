/**
  One step of every instruction in plain words: which word it stores, what it stores there, where the program
  goes on, and that nothing else changes. Programs are followed with these.
 */
module CpuSteps {
  import opened Cpu

  /** Neither stopped nor about to crash on the thread counter. */
  predicate Ready(m: Machine) {
    !m.halted && !m.crashed && (InOwnBlock(m) ==> 0 <= 502 + 10 * m.mem[22] < 10000)
  }

  /** A word before the step, the thread's counter already raised. */
  function Ticked(m: Machine, a: int): int
    requires 0 <= a < 10000
  {
    m.mem[a] + if InOwnBlock(m) && a == 502 + 10 * m.mem[22] then 1 else 0
  }

  predicate IsCounter(m: Machine, a: int) { InOwnBlock(m) && a == 502 + 10 * m.mem[22] }

  /** A word the mode allows, and not the counter being raised. */
  predicate Open(m: Machine, a: int) {
    0 <= a < 10000 && (m.kernel || a <= 20 || a >= 1000) && !IsCounter(m, a)
  }

  /** An open word that the step does not write on its own account. */
  predicate Free(m: Machine, a: int) { Open(m, a) && a != 0 && a != 3 }

  predicate Has(prog: Program, at: int, op: Opcode, operands: seq<int>) {
    at in prog && prog[at].op == op && prog[at].operands == operands
  }

  predicate At(m: Machine, prog: Program, op: Opcode, operands: seq<int>) {
    Has(prog, m.mem[0], op, operands)
  }

  /** The machine goes on in the same mode at pc, one more instruction counted, all words but the given ones kept. */
  ghost predicate GoesOn(m: Machine, m': Machine, pc: int, changed: set<int>) {
    && !m'.halted && !m'.crashed && m'.kernel == m.kernel
    && m'.mem[0] == pc && m'.mem[3] == m.mem[3] + 1
    && forall b {:trigger m'.mem[b]} :: 0 <= b < 10000 && b != 0 && b != 3 && b !in changed ==> m'.mem[b] == Ticked(m, b)
  }

  ghost predicate Stored(m: Machine, m': Machine, a: int, v: int) {
    GoesOn(m, m', m.mem[0] + 1, {a}) && 0 <= a < 10000 && m'.mem[a] == v
  }

  ghost predicate IsStep(tr: seq<Machine>, prog: Program, k: int) {
    0 <= k < |tr| - 1 ==> tr[k + 1] == Execute(tr[k], prog)
  }

  /** A run of the simulator as the sequence of its states. */
  ghost predicate IsTrace(tr: seq<Machine>, prog: Program) {
    forall k :: IsStep(tr, prog, k)
  }

  ghost predicate StepsAt(tr: seq<Machine>, prog: Program, i: nat) {
    IsTrace(tr, prog) && i + 1 < |tr| && Ready(tr[i])
  }

  lemma StepSet(tr: seq<Machine>, i: nat, prog: Program, v: int, a: int)
    requires StepsAt(tr, prog, i) && At(tr[i], prog, SET, [v, a]) && Free(tr[i], a)
    ensures Stored(tr[i], tr[i + 1], a, v)
  {
    assert IsStep(tr, prog, i);
  }

  /** Setting word 0 is a jump. */
  lemma StepGoto(tr: seq<Machine>, i: nat, prog: Program, target: int)
    requires StepsAt(tr, prog, i) && At(tr[i], prog, SET, [target, 0]) && target != tr[i].mem[0]
    ensures GoesOn(tr[i], tr[i + 1], target, {})
  {
    assert IsStep(tr, prog, i);
  }

  lemma StepAdd(tr: seq<Machine>, i: nat, prog: Program, a: int, k: int)
    requires StepsAt(tr, prog, i) && At(tr[i], prog, ADD, [a, k]) && Free(tr[i], a)
    ensures Stored(tr[i], tr[i + 1], a, tr[i].mem[a] + k)
  {
    assert IsStep(tr, prog, i);
  }

  lemma StepAddi(tr: seq<Machine>, i: nat, prog: Program, a: int, b: int)
    requires StepsAt(tr, prog, i) && At(tr[i], prog, ADDI, [a, b]) && Free(tr[i], a) && Open(tr[i], b)
    ensures Stored(tr[i], tr[i + 1], a, tr[i].mem[a] + tr[i].mem[b])
  {
    assert IsStep(tr, prog, i);
  }

  lemma StepSubi(tr: seq<Machine>, i: nat, prog: Program, a: int, b: int)
    requires StepsAt(tr, prog, i) && At(tr[i], prog, SUBI, [a, b]) && Open(tr[i], a) && Free(tr[i], b)
    ensures Stored(tr[i], tr[i + 1], b, tr[i].mem[a] - tr[i].mem[b])
  {
    assert IsStep(tr, prog, i);
  }

  lemma StepCpy(tr: seq<Machine>, i: nat, prog: Program, a: int, b: int)
    requires StepsAt(tr, prog, i) && At(tr[i], prog, CPY, [a, b]) && Open(tr[i], a) && Free(tr[i], b)
    ensures Stored(tr[i], tr[i + 1], b, tr[i].mem[a])
  {
    assert IsStep(tr, prog, i);
  }

  lemma StepCpyi(tr: seq<Machine>, i: nat, prog: Program, a: int, b: int)
    requires StepsAt(tr, prog, i) && At(tr[i], prog, CPYI, [a, b]) && Open(tr[i], a) && Open(tr[i], tr[i].mem[a]) && Free(tr[i], b)
    ensures Stored(tr[i], tr[i + 1], b, tr[i].mem[tr[i].mem[a]])
  {
    assert IsStep(tr, prog, i);
  }

  lemma StepCpyi2(tr: seq<Machine>, i: nat, prog: Program, a: int, b: int)
    requires StepsAt(tr, prog, i) && At(tr[i], prog, CPYI2, [a, b])
    requires Open(tr[i], a) && Open(tr[i], b) && Open(tr[i], tr[i].mem[a]) && Free(tr[i], tr[i].mem[b])
    ensures Stored(tr[i], tr[i + 1], tr[i].mem[b], tr[i].mem[tr[i].mem[a]])
  {
    assert IsStep(tr, prog, i);
  }

  lemma StepJif(tr: seq<Machine>, i: nat, prog: Program, a: int, target: int)
    requires StepsAt(tr, prog, i) && At(tr[i], prog, JIF, [a, target]) && Open(tr[i], a) && target != tr[i].mem[0]
    ensures GoesOn(tr[i], tr[i + 1], if tr[i].mem[a] <= 0 then target else tr[i].mem[0] + 1, {})
  {
    assert IsStep(tr, prog, i);
  }

  /** Room for one more word on the stack, off the registers. */
  predicate HasRoom(m: Machine) { Free(m, m.mem[1] - 1) && m.mem[1] - 1 != 1 && !IsCounter(m, 1) }

  lemma StepPush(tr: seq<Machine>, i: nat, prog: Program, a: int)
    requires StepsAt(tr, prog, i) && At(tr[i], prog, PUSH, [a]) && Open(tr[i], a) && HasRoom(tr[i])
    ensures GoesOn(tr[i], tr[i + 1], tr[i].mem[0] + 1, {1, tr[i].mem[1] - 1}) && tr[i + 1].mem[1] == tr[i].mem[1] - 1 && tr[i + 1].mem[tr[i].mem[1] - 1] == tr[i].mem[a]
  {
    assert IsStep(tr, prog, i);
  }

  lemma StepPop(tr: seq<Machine>, i: nat, prog: Program, a: int)
    requires StepsAt(tr, prog, i) && At(tr[i], prog, POP, [a]) && Free(tr[i], a) && a != 1 && Open(tr[i], tr[i].mem[1]) && !IsCounter(tr[i], 1)
    ensures GoesOn(tr[i], tr[i + 1], tr[i].mem[0] + 1, {1, a}) && tr[i + 1].mem[1] == tr[i].mem[1] + 1 && tr[i + 1].mem[a] == tr[i].mem[tr[i].mem[1]]
  {
    assert IsStep(tr, prog, i);
  }

  lemma StepCall(tr: seq<Machine>, i: nat, prog: Program, target: int)
    requires StepsAt(tr, prog, i) && At(tr[i], prog, CALL, [target]) && HasRoom(tr[i]) && target != tr[i].mem[0]
    ensures GoesOn(tr[i], tr[i + 1], target, {1, tr[i].mem[1] - 1}) && tr[i + 1].mem[1] == tr[i].mem[1] - 1 && tr[i + 1].mem[tr[i].mem[1] - 1] == tr[i].mem[0] + 1
  {
    assert IsStep(tr, prog, i);
  }

  lemma StepRet(tr: seq<Machine>, i: nat, prog: Program)
    requires StepsAt(tr, prog, i) && At(tr[i], prog, RET, []) && Open(tr[i], tr[i].mem[1]) && tr[i].mem[tr[i].mem[1]] != tr[i].mem[0] && !IsCounter(tr[i], 1)
    ensures GoesOn(tr[i], tr[i + 1], tr[i].mem[tr[i].mem[1]], {1}) && tr[i + 1].mem[1] == tr[i].mem[1] + 1
  {
    assert IsStep(tr, prog, i);
  }

  ghost predicate Stops(m: Machine, m': Machine) {
    m'.halted && forall b {:trigger m'.mem[b]} :: 0 <= b < 10000 && b != 0 && b != 3 ==> m'.mem[b] == Ticked(m, b)
  }

  lemma StepHlt(tr: seq<Machine>, i: nat, prog: Program)
    requires StepsAt(tr, prog, i) && At(tr[i], prog, HLT, [])
    ensures Stops(tr[i], tr[i + 1])
  {
    assert IsStep(tr, prog, i);
  }

  predicate AtCall(m: Machine, prog: Program, kind: SyscallType, operands: seq<int>) {
    At(m, prog, SYSCALL, operands) && prog[m.mem[0]].syscall == kind
  }

  /** The print call marks the thread blocked, stamps it with the instruction count and leaves kernel mode. */
  lemma StepPrint(tr: seq<Machine>, i: nat, prog: Program, a: int)
    requires StepsAt(tr, prog, i) && AtCall(tr[i], prog, PRN, [a]) && 0 <= a < 10000 && 0 <= tr[i].mem[22] < 900
    ensures var entry := 500 + 10 * tr[i].mem[22];
            && GoesOn(tr[i].(kernel := false), tr[i + 1], tr[i].mem[0] + 1, {entry + 1, entry + 3})
            && tr[i + 1].mem[entry + 1] == tr[i].mem[3] && tr[i + 1].mem[entry + 3] == 2
  {
    assert IsStep(tr, prog, i);
  }

  lemma StepYield(tr: seq<Machine>, i: nat, prog: Program)
    requires StepsAt(tr, prog, i) && AtCall(tr[i], prog, YIELD, []) && tr[i].mem[0] != 400 && !IsCounter(tr[i], 4)
    ensures GoesOn(tr[i].(kernel := true), tr[i + 1], 400, {4}) && tr[i + 1].mem[4] == tr[i].mem[0] + 1
  {
    assert IsStep(tr, prog, i);
  }

  /** Mode switch and jump through a word. */
  lemma StepUser(tr: seq<Machine>, i: nat, prog: Program, a: int)
    requires StepsAt(tr, prog, i) && At(tr[i], prog, USER, [a]) && 0 <= a < 10000 && !IsCounter(tr[i], a)
    requires 0 <= tr[i].mem[a] < 10000 && (tr[i].mem[a] <= 20 || tr[i].mem[a] >= 1000) && tr[i].mem[a] != tr[i].mem[0]
    ensures GoesOn(tr[i].(kernel := false), tr[i + 1], tr[i].mem[a], {})
  {
    assert IsStep(tr, prog, i);
  }
}
