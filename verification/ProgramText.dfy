/**
  The text form of CPU instructions: how the simulator prints them, how the loader reads them back, and the
  round trip between the two.
 */
module ProgramText {
  import opened Options
  import opened Cpu

  // ---------------------------------------------------------------- numbers

  const LONG_MIN := -0x8000_0000_0000_0000
  const LONG_MAX := 0x7FFF_FFFF_FFFF_FFFF
  const ULONG_RANGE := 0x1_0000_0000_0000_0000

  predicate IsDigit(c: char) { '0' <= c <= '9' }

  predicate AllDigits(s: string) { forall i :: 0 <= i < |s| ==> IsDigit(s[i]) }

  function DigitOf(n: nat): (c: char)
    requires n < 10
    ensures IsDigit(c)
  {
    ('0' as int + n) as char
  }

  function ShowNat(n: nat): (s: string)
    ensures s != "" && AllDigits(s)
  {
    if n < 10 then [DigitOf(n)] else ShowNat(n / 10) + [DigitOf(n % 10)]
  }

  function ShowInt(n: int): string {
    if n < 0 then "-" + ShowNat(-n) else ShowNat(n)
  }

  function Value(s: string): nat
    requires AllDigits(s)
  {
    if s == "" then 0 else Value(s[..|s| - 1]) * 10 + (s[|s| - 1] as int - '0' as int)
  }

  lemma {:induction false} ValueOfShown(n: nat)
    ensures Value(ShowNat(n)) == n
  {
    if n >= 10 {
      ValueOfShown(n / 10);
      assert ShowNat(n)[..|ShowNat(n)| - 1] == ShowNat(n / 10);
    }
  }

  /** How many digits the text starts with. */
  function DigitCount(s: string): (n: nat)
    ensures n <= |s| && AllDigits(s[..n]) && (n < |s| ==> !IsDigit(s[n]))
  {
    if s == "" || !IsDigit(s[0]) then 0
    else
      var n := DigitCount(s[1..]) + 1;
      assert s[..n] == [s[0]] + s[1..][..n - 1];
      n
  }

  lemma AllDigitsCount(s: string)
    requires AllDigits(s)
    ensures DigitCount(s) == |s|
  {}

  /** Sign and magnitude of the longest numeric prefix, as the C library reads it. */
  function ReadNumber(s: string): Option<(bool, nat)> {
    var negative := s != "" && s[0] == '-';
    var rest := if s != "" && (s[0] == '-' || s[0] == '+') then s[1..] else s;
    var n := DigitCount(rest);
    if n == 0 then None else Some((negative, Value(rest[..n])))
  }

  function ReadLong(s: string): Option<int> {
    match ReadNumber(s)
    case None => None
    case Some((negative, v)) =>
      var n: int := if negative then 0 - v else v;
      if LONG_MIN <= n <= LONG_MAX then Some(n) else None
  }

  function ReadUnsigned(s: string): Option<nat> {
    match ReadNumber(s)
    case None => None
    case Some((negative, v)) =>
      if v >= ULONG_RANGE then None else Some(if negative then (ULONG_RANGE - v) % ULONG_RANGE else v)
  }

  lemma DigitsRead(s: string)
    requires s != "" && AllDigits(s)
    ensures ReadNumber(s) == Some((false, Value(s)))
  {
    AllDigitsCount(s);
    assert s[..|s|] == s && IsDigit(s[0]);
  }

  lemma NegatedDigitsRead(s: string)
    requires s != "" && AllDigits(s)
    ensures ReadNumber("-" + s) == Some((true, Value(s)))
  {
    AllDigitsCount(s);
    var t := "-" + s;
    assert t[1..] == s && s[..|s|] == s && t[0] == '-';
  }

  lemma ReadShownNat(n: nat)
    ensures ReadNumber(ShowNat(n)) == Some((false, n))
  {
    DigitsRead(ShowNat(n));
    ValueOfShown(n);
  }

  lemma ReadShownSigned(n: int)
    ensures ReadNumber(ShowInt(n)) == Some((n < 0, if n < 0 then -n else n))
  {
    if n < 0 {
      NegatedDigitsRead(ShowNat(-n));
      ValueOfShown(-n);
    } else {
      ReadShownNat(n);
    }
  }

  lemma ReadShownInt(n: int)
    requires LONG_MIN <= n <= LONG_MAX
    ensures ReadLong(ShowInt(n)) == Some(n)
  {
    ReadShownSigned(n);
  }

  // ---------------------------------------------------------------- lines and tokens

  predicate IsSpace(c: char) {
    c == ' ' || c == '\t' || c == '\n' || c == '\r' || c == 0x0B as char || c == 0x0C as char
  }

  predicate IsWord(s: string) { s != "" && forall i :: 0 <= i < |s| ==> !IsSpace(s[i]) && s[i] != '#' }

  function WordLength(s: string): (n: nat)
    ensures n <= |s| && (forall i :: 0 <= i < n ==> !IsSpace(s[i])) && (n < |s| ==> IsSpace(s[n]))
  {
    if s == "" || IsSpace(s[0]) then 0 else WordLength(s[1..]) + 1
  }

  /** The words of a line, split at white space. */
  function Tokens(s: string): seq<string>
    decreases |s|
  {
    if s == "" then []
    else if IsSpace(s[0]) then Tokens(s[1..])
    else [s[..WordLength(s)]] + Tokens(s[WordLength(s)..])
  }

  function HashAt(s: string): (n: nat)
    ensures n <= |s| && (forall i :: 0 <= i < n ==> s[i] != '#') && (n < |s| ==> s[n] == '#')
  {
    if s == "" || s[0] == '#' then 0 else HashAt(s[1..]) + 1
  }

  function RemoveComment(s: string): string { s[..HashAt(s)] }

  /** The words separated by single spaces. */
  function Line(words: seq<string>): string {
    if words == [] then "" else if |words| == 1 then words[0] else words[0] + " " + Line(words[1..])
  }

  ghost predicate AllWords(words: seq<string>) { forall i :: 0 <= i < |words| ==> IsWord(words[i]) }

  lemma WordLengthOf(w: string, rest: string)
    requires IsWord(w) && (rest == "" || IsSpace(rest[0]))
    ensures WordLength(w + rest) == |w|
  {
    assert forall i :: 0 <= i < |w| ==> (w + rest)[i] == w[i];
    if rest != "" { assert (w + rest)[|w|] == rest[0]; }
  }

  lemma {:induction false} TokensOfLine(words: seq<string>)
    requires AllWords(words)
    ensures Tokens(Line(words)) == words
  {
    if words != [] {
      var w := words[0];
      if |words| == 1 {
        WordLengthOf(w, "");
        assert w + "" == w;
        assert w[..|w|] == w && w[|w|..] == "";
      } else {
        var rest := " " + Line(words[1..]);
        TokensOfLine(words[1..]);
        WordLengthOf(w, rest);
        assert Line(words) == w + rest;
        assert (w + rest)[..|w|] == w && (w + rest)[|w|..] == rest;
        assert rest[1..] == Line(words[1..]);
        assert Tokens(rest) == words[1..];
      }
    }
  }

  /** Blanks, tabs and line ends separate words, however many there are. */
  lemma SpacesSeparate(w: string, c: char, rest: string)
    requires c in {' ', '\t', '\n', '\r', 0x0B as char, 0x0C as char} && IsWord(w)
    ensures Tokens([c] + rest) == Tokens(rest)
    ensures Tokens(w + [c] + rest) == [w] + Tokens(rest)
  {
    var s := [c] + rest;
    assert s[1..] == rest;
    WordLengthOf(w, s);
    assert w + [c] + rest == w + s;
    assert (w + s)[..|w|] == w && (w + s)[|w|..] == s && (w + s)[0] == w[0];
  }

  lemma {:induction false} LineHasNoHash(words: seq<string>, i: nat)
    requires AllWords(words) && i < |Line(words)|
    ensures Line(words)[i] != '#'
  {
    if |words| > 1 {
      var w := words[0];
      if i > |w| { LineHasNoHash(words[1..], i - |w| - 1); }
    }
  }

  lemma NoCommentInLine(words: seq<string>, comment: string)
    requires AllWords(words)
    ensures RemoveComment(Line(words)) == Line(words)
    ensures RemoveComment(Line(words) + "#" + comment) == Line(words)
  {
    var s := Line(words);
    if HashAt(s) < |s| { LineHasNoHash(words, HashAt(s)); }
    var t := s + "#" + comment;
    assert t[|s|] == '#';
    if HashAt(t) < |s| { LineHasNoHash(words, HashAt(t)); }
  }

  // ---------------------------------------------------------------- instructions

  function Mnemonic(op: Opcode): string {
    match op
    case SET => "SET" case CPY => "CPY" case CPYI => "CPYI" case CPYI2 => "CPYI2"
    case ADD => "ADD" case ADDI => "ADDI" case SUBI => "SUBI" case JIF => "JIF"
    case PUSH => "PUSH" case POP => "POP" case CALL => "CALL" case RET => "RET"
    case HLT => "HLT" case USER => "USER" case SYSCALL => "SYSCALL"
  }

  function SyscallName(t: SyscallType): string {
    match t case PRN => "PRN" case HALT => "HLT" case YIELD => "YIELD" case UNKNOWN => "UNKNOWN"
  }

  function ShownOperands(ops: seq<int>): (ws: seq<string>)
    ensures |ws| == |ops|
  {
    seq(|ops|, i requires 0 <= i < |ops| => ShowInt(ops[i]))
  }

  /** The words the simulator prints for an instruction. */
  function Printed(instr: Instruction): seq<string> {
    [Mnemonic(instr.op)]
    + (if instr.op == SYSCALL then [SyscallName(instr.syscall)] else [])
    + ShownOperands(instr.operands)
  }

  /** Operands from the first n words, or nothing when there are fewer words; a bad number is an error. */
  function ReadOperands(words: seq<string>, n: nat): Option<seq<int>> {
    if |words| < n || n == 0 then Some([])
    else if n == 1 then
      match ReadLong(words[0]) case None => None case Some(v) => Some([v])
    else
      match (ReadLong(words[0]), ReadLong(words[1]))
      case (Some(v), Some(w)) => Some([v, w])
      case _ => None
  }

  function OpcodeOf(word: string): Option<Opcode> {
    if word == "SET" then Some(SET) else if word == "CPY" then Some(CPY)
    else if word == "CPYI" then Some(CPYI) else if word == "CPYI2" then Some(CPYI2)
    else if word == "ADD" then Some(ADD) else if word == "ADDI" then Some(ADDI)
    else if word == "SUBI" then Some(SUBI) else if word == "JIF" then Some(JIF)
    else if word == "PUSH" then Some(PUSH) else if word == "POP" then Some(POP)
    else if word == "CALL" then Some(CALL) else if word == "RET" then Some(RET)
    else if word == "HLT" then Some(HLT) else if word == "USER" then Some(USER)
    else if word == "SYSCALL" then Some(SYSCALL) else None
  }

  /** How many operands the loader looks for. */
  function OperandCount(op: Opcode): nat {
    match op
    case RET => 0 case HLT => 0 case SYSCALL => 0
    case PUSH => 1 case POP => 1 case CALL => 1 case USER => 1
    case _ => 2
  }

  function ReadSyscall(words: seq<string>): Option<Instruction> {
    if words == [] then Some(Instruction(SYSCALL, UNKNOWN, []))
    else if words[0] == "PRN" then
      match ReadOperands(words[1..], 1)
      case None => None
      case Some(ops) => Some(Instruction(SYSCALL, PRN, ops))
    else if words[0] == "HLT" then Some(Instruction(SYSCALL, HALT, []))
    else if words[0] == "YIELD" then Some(Instruction(SYSCALL, YIELD, []))
    else None
  }

  /** Loads one line into the program: address, mnemonic, operands. A line in error changes nothing. */
  function ProcessLine(prog: Program, line: string): Program {
    var tokens := Tokens(RemoveComment(line));
    if |tokens| < 2 then prog
    else
      match (ReadUnsigned(tokens[0]), ReadInstruction(tokens[1..]))
      case (Some(address), Some(instr)) => prog[address := instr]
      case _ => prog
  }

  function ReadInstruction(words: seq<string>): Option<Instruction>
    requires words != []
  {
    match OpcodeOf(words[0])
    case None => None
    case Some(op) =>
      if op == SYSCALL then ReadSyscall(words[1..])
      else
        match ReadOperands(words[1..], OperandCount(op))
        case None => None
        case Some(ops) => Some(Instruction(op, UNKNOWN, ops))
  }

  /** An instruction with the operands its handler requires, each of them a 64-bit word. */
  predicate WellFormed(instr: Instruction) {
    && (forall i :: 0 <= i < |instr.operands| ==> LONG_MIN <= instr.operands[i] <= LONG_MAX)
    && (if instr.op == SYSCALL then
          instr.syscall != UNKNOWN && |instr.operands| == (if instr.syscall == PRN then 1 else 0)
        else
          && instr.syscall == UNKNOWN
          && (|instr.operands| == OperandCount(instr.op) || (instr.op == USER && instr.operands == [])))
  }

  // ---------------------------------------------------------------- as written

  /** Numbers are decimal: of two digits the first counts tens and the second ones, read or shown. */
  lemma NumbersAsWritten(a: char, b: char)
    requires IsDigit(a) && IsDigit(b)
    ensures var n := 10 * (a as int - '0' as int) + (b as int - '0' as int);
            && ReadLong([a, b]) == Some(n) && ReadLong(['-', a, b]) == Some(0 - n)
            && (a != '0' ==> ShowInt(n) == [a, b] && ShowInt(0 - n) == ['-', a, b])
  {
    var n := 10 * (a as int - '0' as int) + (b as int - '0' as int);
    assert [a, b][..1] == [a] && [a][..0] == [];
    assert Value([a]) == a as int - '0' as int;
    assert Value([a, b]) == n;
    DigitsRead([a, b]);
    NegatedDigitsRead([a, b]);
    assert "-" + [a, b] == ['-', a, b];
    if a != '0' { assert ShowNat(n) == [a, b] by { assert n / 10 == a as int - '0' as int; } }
  }

  /** The mnemonics as programs write them. */
  lemma MnemonicsAsWritten()
    ensures OpcodeOf("SET") == Some(SET) && OpcodeOf("CPY") == Some(CPY) && OpcodeOf("CPYI") == Some(CPYI)
    ensures OpcodeOf("CPYI2") == Some(CPYI2) && OpcodeOf("ADD") == Some(ADD) && OpcodeOf("ADDI") == Some(ADDI)
    ensures OpcodeOf("SUBI") == Some(SUBI) && OpcodeOf("JIF") == Some(JIF)
    ensures OpcodeOf("PUSH") == Some(PUSH) && OpcodeOf("POP") == Some(POP) && OpcodeOf("CALL") == Some(CALL)
    ensures OpcodeOf("RET") == Some(RET) && OpcodeOf("HLT") == Some(HLT) && OpcodeOf("USER") == Some(USER)
    ensures OpcodeOf("SYSCALL") == Some(SYSCALL)
  {}

  /** Operands are read in the order written; fewer words than the instruction takes leave it without any. */
  lemma OperandsAsWritten(word: string, op: Opcode, x: string, y: string, v: int, w: int)
    requires OpcodeOf(word) == Some(op) && op != SYSCALL && ReadLong(x) == Some(v) && ReadLong(y) == Some(w)
    ensures op in {SET, CPY, CPYI, CPYI2, ADD, ADDI, SUBI, JIF} ==>
              && ReadInstruction([word, x, y]) == Some(Instruction(op, UNKNOWN, [v, w]))
              && ReadInstruction([word, x]) == Some(Instruction(op, UNKNOWN, []))
    ensures op in {PUSH, POP, CALL, USER} ==> ReadInstruction([word, x]) == Some(Instruction(op, UNKNOWN, [v]))
    ensures ReadInstruction([word]) == Some(Instruction(op, UNKNOWN, []))
  {}

  lemma SystemCallsAsWritten(x: string, v: int)
    requires ReadLong(x) == Some(v)
    ensures ReadInstruction(["SYSCALL", "PRN", x]) == Some(Instruction(SYSCALL, PRN, [v]))
    ensures ReadInstruction(["SYSCALL", "HLT"]) == Some(Instruction(SYSCALL, HALT, []))
    ensures ReadInstruction(["SYSCALL", "YIELD"]) == Some(Instruction(SYSCALL, YIELD, []))
  {}

  /** A line of words loads the instruction they write at the address they start with. */
  lemma LineLoads(prog: Program, words: seq<string>, address: nat, instr: Instruction)
    requires |words| >= 2 && AllWords(words)
    requires ReadUnsigned(words[0]) == Some(address) && ReadInstruction(words[1..]) == Some(instr)
    ensures ProcessLine(prog, Line(words)) == prog[address := instr]
  {
    NoCommentInLine(words, "");
    TokensOfLine(words);
  }

  // ---------------------------------------------------------------- round trip

  lemma ShownIntIsWord(n: int)
    ensures IsWord(ShowInt(n))
  {}

  lemma MnemonicIsWord(op: Opcode)
    ensures IsWord(Mnemonic(op)) && OpcodeOf(Mnemonic(op)) == Some(op)
  {}

  lemma PrintedAreWords(instr: Instruction)
    ensures AllWords(Printed(instr))
  {
    MnemonicIsWord(instr.op);
    forall i | 0 <= i < |instr.operands| ensures IsWord(ShownOperands(instr.operands)[i]) {
      ShownIntIsWord(instr.operands[i]);
    }
  }

  lemma OperandsReadBack(ops: seq<int>, n: nat)
    requires |ops| <= 2 && (n == |ops| || (ops == [] && n == 1))
    requires forall i :: 0 <= i < |ops| ==> LONG_MIN <= ops[i] <= LONG_MAX
    ensures ReadOperands(ShownOperands(ops), n) == Some(ops)
  {
    if |ops| == 1 {
      ReadShownInt(ops[0]);
      assert ops == [ops[0]];
    } else if |ops| == 2 {
      ReadShownInt(ops[0]);
      ReadShownInt(ops[1]);
      assert ops == [ops[0], ops[1]];
    }
  }

  lemma InstructionReadsBack(instr: Instruction)
    requires WellFormed(instr)
    ensures ReadInstruction(Printed(instr)) == Some(instr)
  {
    MnemonicIsWord(instr.op);
    var shown := ShownOperands(instr.operands);
    if instr.op == SYSCALL {
      assert Printed(instr)[1..] == [SyscallName(instr.syscall)] + shown;
      assert Printed(instr)[1..][1..] == shown;
      if instr.syscall == PRN { OperandsReadBack(instr.operands, 1); } else { assert instr.operands == []; }
    } else {
      assert Printed(instr)[1..] == shown;
      OperandsReadBack(instr.operands, OperandCount(instr.op));
    }
  }

  /**
    Round trip: a line made of an address and an instruction as the simulator prints it, with or without a
    comment behind it, loads that same instruction at that address and changes nothing else.
   */
  lemma PrintedInstructionLoadsBack(prog: Program, address: nat, instr: Instruction, comment: string)
    requires address < ULONG_RANGE && WellFormed(instr)
    ensures ProcessLine(prog, Line([ShowNat(address)] + Printed(instr))) == prog[address := instr]
    ensures ProcessLine(prog, Line([ShowNat(address)] + Printed(instr)) + "#" + comment) == prog[address := instr]
  {
    var words := [ShowNat(address)] + Printed(instr);
    PrintedAreWords(instr);
    ShownIntIsWord(address);
    assert AllWords(words);
    NoCommentInLine(words, comment);
    TokensOfLine(words);
    assert words[1..] == Printed(instr);
    ReadShownNat(address);
    InstructionReadsBack(instr);
  }

  // ---------------------------------------------------------------- the loader object

  /** The extraction loop: skip white space, take a word, repeat. */
  method Tokenize(line: string) returns (tokens: seq<string>)
    ensures tokens == Tokens(line)
  {
    assert line[0..] == line;
    tokens := [];
    var i := 0;
    while i < |line|
      invariant i <= |line| && tokens + Tokens(line[i..]) == Tokens(line)
    {
      if IsSpace(line[i]) {
        assert line[i..][1..] == line[i + 1..];
        i := i + 1;
      } else {
        var n := WordLength(line[i..]);
        assert line[i..][n..] == line[i + n..] && line[i..][..n] == line[i..i + n];
        assert tokens + ([line[i..i + n]] + Tokens(line[i + n..])) == (tokens + [line[i..i + n]]) + Tokens(line[i + n..]);
        tokens := tokens + [line[i..i + n]];
        i := i + n;
      }
    }
  }

  class Parser {
    var instructionMap: Program

    constructor ()
      ensures instructionMap == map[]
    {
      instructionMap := map[];
    }

    method ProcessInstructionLine(line: string)
      modifies this
      ensures instructionMap == ProcessLine(old(instructionMap), line)
    {
      var tokens := Tokenize(RemoveComment(line));
      if |tokens| < 2 { return; }
      var address := ReadUnsigned(tokens[0]);
      if address.None? { return; }
      var instr := ReadInstruction(tokens[1..]);
      if instr.Some? { instructionMap := instructionMap[address.value := instr.value]; }
    }
  }
}
