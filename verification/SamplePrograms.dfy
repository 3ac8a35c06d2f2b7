/**
  The sample programs shipped with the simulator, run on it: what they leave in memory, for all inputs in place
  of the constants they are written with.
 */
module SamplePrograms {
  import opened Options
  import opened ProgramText
  import opened Cpu
  import opened CpuSteps

  /** The programs run as thread 0, whose instruction counter is word 502. */
  predicate Running(m: Machine, pc: int) {
    !m.halted && !m.crashed && m.mem[22] == 0 && m.mem[0] == pc
  }

  // ---------------------------------------------------------------- the sum of 1 to n

  predicate Prints(prog: Program, at: int, a: int) {
    Has(prog, at, SYSCALL, [a]) && prog[at].syscall == PRN
  }

  predicate SumProgram(prog: Program, n: int) {
    && Has(prog, 0, SET, [n, 18]) && Has(prog, 1, SET, [0, 17]) && Has(prog, 2, ADDI, [17, 18])
    && Has(prog, 3, ADD, [18, -1]) && Has(prog, 4, JIF, [18, 7]) && Prints(prog, 5, 17)
    && Has(prog, 6, SET, [2, 0]) && Prints(prog, 7, 17) && Has(prog, 8, HLT, [])
  }

  /** One addition, from 2 to the test at 4 and on. */
  lemma SumRound(tr: seq<Machine>, i: nat, prog: Program, n: int)
    requires IsTrace(tr, prog) && i + 3 < |tr| && SumProgram(prog, n) && Running(tr[i], 2)
    ensures var m, m' := tr[i], tr[i + 3];
            && Running(m', if m.mem[18] <= 1 then 7 else 5)
            && m'.mem[17] == m.mem[17] + m.mem[18] && m'.mem[18] == m.mem[18] - 1
  {
    StepAddi(tr, i, prog, 17, 18);
    StepAdd(tr, i + 1, prog, 18, -1);
    StepJif(tr, i + 2, prog, 18, 7);
  }

  lemma SumBack(tr: seq<Machine>, i: nat, prog: Program, n: int)
    requires IsTrace(tr, prog) && i + 2 < |tr| && SumProgram(prog, n) && Running(tr[i], 5)
    ensures Running(tr[i + 2], 2) && tr[i + 2].mem[17] == tr[i].mem[17] && tr[i + 2].mem[18] == tr[i].mem[18]
  {
    StepPrint(tr, i, prog, 17);
    StepGoto(tr, i + 1, prog, 2);
  }

  function Gauss(k: nat): nat { if k == 0 then 0 else k + Gauss(k - 1) }

  lemma {:induction false} GaussFormula(k: nat)
    ensures 2 * Gauss(k) == k * (k + 1)
  {
    if k > 0 { GaussFormula(k - 1); }
  }

  lemma {:induction false} SumLoop(tr: seq<Machine>, i: nat, prog: Program, n: int, k: nat)
    requires k >= 1 && IsTrace(tr, prog) && i + 5 * k - 2 < |tr| && SumProgram(prog, n)
    requires Running(tr[i], 2) && tr[i].mem[18] == k
    ensures Running(tr[i + 5 * k - 2], 7) && tr[i + 5 * k - 2].mem[17] == tr[i].mem[17] + Gauss(k)
    decreases k
  {
    SumRound(tr, i, prog, n);
    if k == 1 {
      assert Gauss(1) == 1;
    } else {
      SumBack(tr, i + 3, prog, n);
      SumLoop(tr, i + 5, prog, n, k - 1);
    }
  }

  lemma SumStart(tr: seq<Machine>, prog: Program, n: int)
    requires IsTrace(tr, prog) && 2 < |tr| && SumProgram(prog, n) && Running(tr[0], 0)
    ensures Running(tr[2], 2) && tr[2].mem[17] == 0 && tr[2].mem[18] == n
  {
    StepSet(tr, 0, prog, n, 18);
    StepSet(tr, 1, prog, 0, 17);
  }

  lemma SumEnd(tr: seq<Machine>, i: nat, prog: Program, n: int)
    requires IsTrace(tr, prog) && i + 2 < |tr| && SumProgram(prog, n) && Running(tr[i], 7)
    ensures tr[i + 2].halted && tr[i + 2].mem[17] == tr[i].mem[17]
  {
    StepPrint(tr, i, prog, 17);
    StepHlt(tr, i + 1, prog);
  }

  /** For every n from 1 on the program halts after 5n + 2 instructions with 1 + 2 + ... + n in word 17. */
  lemma SumProgramSums(tr: seq<Machine>, prog: Program, n: nat)
    requires n >= 1 && 5 * n + 2 < |tr| && IsTrace(tr, prog) && SumProgram(prog, n) && Running(tr[0], 0)
    ensures tr[5 * n + 2].halted && 2 * tr[5 * n + 2].mem[17] == n * (n + 1)
  {
    SumStart(tr, prog, n);
    SumLoop(tr, 2, prog, n, n);
    SumEnd(tr, 5 * n, prog, n);
    GaussFormula(n);
  }

  /** The loop tests last, so a bound below 1 is still added once: the program leaves the bound itself. */
  lemma SumProgramBelowOne(tr: seq<Machine>, prog: Program, n: int)
    requires n < 1 && 7 < |tr| && IsTrace(tr, prog) && SumProgram(prog, n) && Running(tr[0], 0)
    ensures tr[7].halted && tr[7].mem[17] == n
  {
    SumStart(tr, prog, n);
    SumRound(tr, 2, prog, n);
    SumEnd(tr, 5, prog, n);
  }

  // ---------------------------------------------------------------- the stack test

  predicate StackProgram(prog: Program) {
    && Has(prog, 0, PUSH, [4]) && Has(prog, 1, PUSH, [5]) && Has(prog, 2, PUSH, [6])
    && Has(prog, 3, POP, [9]) && Has(prog, 4, POP, [8]) && Has(prog, 5, POP, [7]) && Has(prog, 6, HLT, [])
  }

  lemma ThreePushes(tr: seq<Machine>, prog: Program)
    requires IsTrace(tr, prog) && 3 < |tr| && StackProgram(prog) && Running(tr[0], 0) && tr[0].kernel && tr[0].mem[1] == 100
    ensures var m, m' := tr[0], tr[3];
            && Running(m', 3) && m'.kernel && m'.mem[1] == 97
            && m'.mem[99] == m.mem[4] && m'.mem[98] == m.mem[5] && m'.mem[97] == m.mem[6]
  {
    StepPush(tr, 0, prog, 4);
    StepPush(tr, 1, prog, 5);
    StepPush(tr, 2, prog, 6);
  }

  /** Three words pushed come back in reverse order, whatever they are, and the stack is empty again. */
  lemma StackProgramReverses(tr: seq<Machine>, prog: Program)
    requires IsTrace(tr, prog) && 7 < |tr| && StackProgram(prog) && Running(tr[0], 0) && tr[0].kernel && tr[0].mem[1] == 100
    ensures var m, m' := tr[0], tr[7];
            && m'.halted && m'.mem[1] == 100
            && m'.mem[9] == m.mem[6] && m'.mem[8] == m.mem[5] && m'.mem[7] == m.mem[4]
  {
    ThreePushes(tr, prog);
    StepPop(tr, 3, prog, 9);
    StepPop(tr, 4, prog, 8);
    StepPop(tr, 5, prog, 7);
    StepHlt(tr, 6, prog);
  }

  lemma DigitRead(c: char)
    requires IsDigit(c)
    ensures ReadLong([c]) == Some(c as int - '0' as int) && ReadUnsigned([c]) == Some(c as int - '0' as int)
  {
    assert [c][..0] == [] && Value([c]) == c as int - '0' as int;
    DigitsRead([c]);
  }

  /** A line of three words with one-digit numbers. */
  lemma OperationLoads(prog: Program, words: seq<string>, at: char, op: Opcode, x: char)
    requires IsDigit(at) && IsDigit(x) && (op == PUSH || op == POP) && words == [[at], Mnemonic(op), [x]]
    ensures ProcessLine(prog, Line(words))
         == prog[at as int - '0' as int := Instruction(op, UNKNOWN, [x as int - '0' as int])]
  {
    MnemonicIsWord(op);
    DigitRead(at);
    DigitRead(x);
    OperandsAsWritten(Mnemonic(op), op, [x], [x], x as int - '0' as int, x as int - '0' as int);
    assert words[1..] == [Mnemonic(op), [x]];
    LineLoads(prog, words, at as int - '0' as int, Instruction(op, UNKNOWN, [x as int - '0' as int]));
  }

  lemma HaltLoads(prog: Program, words: seq<string>, at: char)
    requires IsDigit(at) && words == [[at], Mnemonic(HLT)]
    ensures ProcessLine(prog, Line(words)) == prog[at as int - '0' as int := Instruction(HLT, UNKNOWN, [])]
  {
    MnemonicIsWord(HLT);
    DigitRead(at);
    OperandsAsWritten(Mnemonic(HLT), HLT, [at], [at], at as int - '0' as int, at as int - '0' as int);
    assert words[1..] == [Mnemonic(HLT)];
    LineLoads(prog, words, at as int - '0' as int, Instruction(HLT, UNKNOWN, []));
  }

  /** The words of the test's lines. */
  predicate StackText(text: seq<seq<string>>) {
    && |text| == 7
    && text[0] == ["0", "PUSH", "4"] && text[1] == ["1", "PUSH", "5"] && text[2] == ["2", "PUSH", "6"]
    && text[3] == ["3", "POP", "9"] && text[4] == ["4", "POP", "8"] && text[5] == ["5", "POP", "7"]
    && text[6] == ["6", "HLT"]
  }

  predicate LineLoaded(text: seq<seq<string>>, progs: seq<Program>, k: nat) {
    k < |text| && k + 1 < |progs| && progs[k + 1] == ProcessLine(progs[k], Line(text[k]))
  }

  /** The programs after each line of a text, loaded one after the other. */
  predicate Loading(text: seq<seq<string>>, progs: seq<Program>) {
    |progs| == |text| + 1 && progs[0] == map[] && forall k: nat :: k < |text| ==> LineLoaded(text, progs, k)
  }

  lemma OperationAt(text: seq<seq<string>>, progs: seq<Program>, k: nat, at: char, op: Opcode, x: char)
    requires Loading(text, progs) && k < |text| && text[k] == [[at], Mnemonic(op), [x]]
    requires IsDigit(at) && IsDigit(x) && (op == PUSH || op == POP)
    ensures progs[k + 1] == progs[k][at as int - '0' as int := Instruction(op, UNKNOWN, [x as int - '0' as int])]
  {
    assert LineLoaded(text, progs, k);
    OperationLoads(progs[k], text[k], at, op, x);
  }

  lemma HaltAt(text: seq<seq<string>>, progs: seq<Program>, k: nat, at: char)
    requires Loading(text, progs) && k < |text| && text[k] == [[at], Mnemonic(HLT)] && IsDigit(at)
    ensures progs[k + 1] == progs[k][at as int - '0' as int := Instruction(HLT, UNKNOWN, [])]
  {
    assert LineLoaded(text, progs, k);
    HaltLoads(progs[k], text[k], at);
  }

  lemma PushesLoad(text: seq<seq<string>>, progs: seq<Program>)
    requires StackText(text) && Loading(text, progs)
    ensures Has(progs[3], 0, PUSH, [4]) && Has(progs[3], 1, PUSH, [5]) && Has(progs[3], 2, PUSH, [6])
  {
    OperationAt(text, progs, 0, '0', PUSH, '4');
    OperationAt(text, progs, 1, '1', PUSH, '5');
    OperationAt(text, progs, 2, '2', PUSH, '6');
  }

  /** The text of the test, loaded line by line, is the program above. */
  lemma StackTestLoads(text: seq<seq<string>>, progs: seq<Program>)
    requires StackText(text) && Loading(text, progs)
    ensures StackProgram(progs[7])
  {
    PushesLoad(text, progs);
    OperationAt(text, progs, 3, '3', POP, '9');
    OperationAt(text, progs, 4, '4', POP, '8');
    OperationAt(text, progs, 5, '5', POP, '7');
    HaltAt(text, progs, 6, '6');
  }

  // ---------------------------------------------------------------- the subroutine test

  predicate AdditionRoutine(prog: Program) {
    Has(prog, 10, CPY, [4, 6]) && Has(prog, 11, ADDI, [5, 6]) && Has(prog, 12, RET, [])
  }

  predicate MultiplicationRoutine(prog: Program) {
    && Has(prog, 20, SET, [0, 7]) && Has(prog, 21, CPY, [5, 8]) && Has(prog, 22, JIF, [8, 26])
    && Has(prog, 23, ADDI, [4, 7]) && Has(prog, 24, ADD, [8, -1]) && Has(prog, 25, SET, [22, 0])
    && Has(prog, 26, RET, [])
  }

  predicate SubroutineProgram(prog: Program) {
    && Has(prog, 0, CALL, [10]) && Has(prog, 1, CALL, [20]) && Has(prog, 2, HLT, [])
    && AdditionRoutine(prog) && MultiplicationRoutine(prog)
  }

  lemma CallsAddition(tr: seq<Machine>, prog: Program)
    requires IsTrace(tr, prog) && 4 < |tr| && SubroutineProgram(prog) && Running(tr[0], 0) && tr[0].mem[1] == 1500
    ensures var m, m' := tr[0], tr[4];
            && Running(m', 1) && m'.mem[1] == 1500
            && m'.mem[4] == m.mem[4] && m'.mem[5] == m.mem[5] + m.mem[4] && m'.mem[6] == m.mem[4]
  {
    StepCall(tr, 0, prog, 10);
    StepCpy(tr, 1, prog, 4, 6);
    StepAddi(tr, 2, prog, 5, 6);
    StepRet(tr, 3, prog);
  }

  /** Inside the multiplication, called from 1. */
  predicate Multiplying(m: Machine, pc: int) {
    Running(m, pc) && m.mem[1] == 1499 && m.mem[1499] == 2 && m.mem[7] == 0
  }

  ghost predicate SameInputs(m: Machine, m': Machine) {
    m'.mem[4] == m.mem[4] && m'.mem[5] == m.mem[5] && m'.mem[6] == m.mem[6]
  }

  lemma MultiplicationRound(tr: seq<Machine>, i: nat, prog: Program)
    requires IsTrace(tr, prog) && i + 4 < |tr| && MultiplicationRoutine(prog) && Multiplying(tr[i], 22) && tr[i].mem[8] > 0
    ensures Multiplying(tr[i + 4], 22) && tr[i + 4].mem[8] == tr[i].mem[8] - 1 && SameInputs(tr[i], tr[i + 4])
  {
    StepJif(tr, i, prog, 8, 26);
    StepAddi(tr, i + 1, prog, 4, 7);
    StepAdd(tr, i + 2, prog, 8, -1);
    StepGoto(tr, i + 3, prog, 22);
  }

  lemma {:induction false} MultiplicationLoop(tr: seq<Machine>, i: nat, prog: Program, k: nat)
    requires IsTrace(tr, prog) && i + 4 * k + 1 < |tr| && MultiplicationRoutine(prog) && Multiplying(tr[i], 22)
    requires k == if tr[i].mem[8] <= 0 then 0 else tr[i].mem[8]
    ensures Multiplying(tr[i + 4 * k + 1], 26) && SameInputs(tr[i], tr[i + 4 * k + 1])
    decreases k
  {
    if k == 0 {
      StepJif(tr, i, prog, 8, 26);
    } else {
      MultiplicationRound(tr, i, prog);
      MultiplicationLoop(tr, i + 4, prog, k - 1);
    }
  }

  lemma EntersMultiplication(tr: seq<Machine>, i: nat, prog: Program)
    requires IsTrace(tr, prog) && i + 3 < |tr| && SubroutineProgram(prog) && Running(tr[i], 1) && tr[i].mem[1] == 1500
    ensures Multiplying(tr[i + 3], 22) && tr[i + 3].mem[8] == tr[i].mem[5] && SameInputs(tr[i], tr[i + 3])
  {
    StepCall(tr, i, prog, 20);
    StepSet(tr, i + 1, prog, 0, 7);
    StepCpy(tr, i + 2, prog, 5, 8);
  }

  lemma LeavesMultiplication(tr: seq<Machine>, i: nat, prog: Program)
    requires IsTrace(tr, prog) && i + 2 < |tr| && SubroutineProgram(prog) && Multiplying(tr[i], 26)
    ensures tr[i + 2].halted && tr[i + 2].mem[1] == 1500 && tr[i + 2].mem[7] == 0 && SameInputs(tr[i], tr[i + 2])
  {
    StepRet(tr, i, prog);
    StepHlt(tr, i + 1, prog);
  }

  /** The loop of the multiplication runs as often as the sum the addition left behind. */
  function Rounds(m: Machine): nat {
    if m.mem[4] + m.mem[5] <= 0 then 0 else m.mem[4] + m.mem[5]
  }

  /**
    Both calls return and the program halts with the stack as it was. An indirect addition stores into its first
    operand, so the sum is left in word 5, not in word 6, and the product in word 7 stays 0.
   */
  lemma SubroutineProgramResult(tr: seq<Machine>, prog: Program)
    requires tr != [] && IsTrace(tr, prog) && SubroutineProgram(prog) && Running(tr[0], 0) && tr[0].mem[1] == 1500
    requires 10 + 4 * Rounds(tr[0]) < |tr|
    ensures var m, m' := tr[0], tr[10 + 4 * Rounds(tr[0])];
            && m'.halted && m'.mem[1] == 1500
            && m'.mem[4] == m.mem[4] && m'.mem[5] == m.mem[4] + m.mem[5]
            && m'.mem[6] == m.mem[4] && m'.mem[7] == 0
  {
    CallsAddition(tr, prog);
    EntersMultiplication(tr, 4, prog);
    MultiplicationLoop(tr, 7, prog, Rounds(tr[0]));
    LeavesMultiplication(tr, 8 + 4 * Rounds(tr[0]), prog);
  }

  /** The results its comments announce come out exactly when a term, or a factor, is 0. */
  lemma SubroutineCommentsHoldExactlyWhen(tr: seq<Machine>, prog: Program)
    requires tr != [] && IsTrace(tr, prog) && SubroutineProgram(prog) && Running(tr[0], 0) && tr[0].mem[1] == 1500
    requires 10 + 4 * Rounds(tr[0]) < |tr|
    ensures var m, m' := tr[0], tr[10 + 4 * Rounds(tr[0])];
            && (m'.mem[6] == m.mem[4] + m.mem[5] <==> m.mem[5] == 0)
            && (m'.mem[7] == m.mem[4] * m.mem[5] <==> m.mem[4] == 0 || m.mem[5] == 0)
  {
    SubroutineProgramResult(tr, prog);
  }
}
