/**
 * The unit tests of the node, replayed on the Node class: each method runs the
 * test's program and returns what the test inspects, and its postcondition
 * states the values the test expects. Each source line is written as its
 * tokens joined by a space ("ADD" + " " + "1" is the line `ADD 1`), and the
 * lemmas before the tests say how those lines parse.
 */
module NodeTests {
  import opened Text
  import opened Assembler
  import opened Execution
  import opened Nodes

  /** The instruction `op v`. */
  function WithInt(op: string, v: int): Instr {
    Instr(Str(op), Int(v), Absent)
  }

  /** The instruction `op` with no operand. */
  function Bare(op: string): Instr {
    Instr(Str(op), Absent, Absent)
  }

  /** `ADD v` / `SUB v` with v written in decimal parses to (op, v, None), valid unless v is 0. */
  lemma NumberLine(op: string, a: string, v: int)
    requires op == "ADD" || op == "SUB"
    requires a == FormatInt(v)
    ensures ParseLine(op + " " + a) == WithInt(op, v)
    ensures InstructionValid(WithInt(op, v), []) <==> v != 0
  {
    ParseMnemonicNumber(op, a, v);
    AddSubValidIff(WithInt(op, v), []);
  }

  /** `NOP`, `SAV`, `SWP`, `NEG` alone on a line parse to (op, None, None), which is valid. */
  lemma BareLine(op: string)
    requires op in ["NOP", "SAV", "SWP", "NEG"]
    ensures ParseLine(op) == Bare(op)
    ensures InstructionValid(Bare(op), [])
  {
    ParseMnemonic(op);
    NoOperandValidIff(Bare(op), []);
  }

  lemma Assemble3(l1: string, l2: string, l3: string, i1: Instr, i2: Instr, i3: Instr)
    requires ParseLine(l1) == i1 && ParseLine(l2) == i2 && ParseLine(l3) == i3
    ensures Assemble([l1, l2, l3]) == [i1, i2, i3]
  {
    AssembleEach([l1, l2, l3], [i1, i2, i3]);
  }

  lemma Assemble4(l1: string, l2: string, l3: string, l4: string, i1: Instr, i2: Instr, i3: Instr, i4: Instr)
    requires ParseLine(l1) == i1 && ParseLine(l2) == i2 && ParseLine(l3) == i3 && ParseLine(l4) == i4
    ensures Assemble([l1, l2, l3, l4]) == [i1, i2, i3, i4]
  {
    AssembleEach([l1, l2, l3, l4], [i1, i2, i3, i4]);
  }

  /** The three-line programs `op a`, `op b`, `op c` of the ADD and SUB tests. */
  lemma ThreeNumbersParse(op: string, a: string, b: string, c: string, va: int, vb: int, vc: int)
    requires op == "ADD" || op == "SUB"
    requires a == FormatInt(va) && b == FormatInt(vb) && c == FormatInt(vc)
    ensures Assemble([op + " " + a, op + " " + b, op + " " + c]) == [WithInt(op, va), WithInt(op, vb), WithInt(op, vc)]
  {
    NumberLine(op, a, va);
    NumberLine(op, b, vb);
    NumberLine(op, c, vc);
    Assemble3(op + " " + a, op + " " + b, op + " " + c, WithInt(op, va), WithInt(op, vb), WithInt(op, vc));
  }

  lemma ThreeNumbersValid(op: string, va: int, vb: int, vc: int)
    requires op == "ADD" || op == "SUB"
    requires va != 0 && vb != 0 && vc != 0
    ensures ProgramValid([WithInt(op, va), WithInt(op, vb), WithInt(op, vc)], [])
  {
    AddSubValidIff(WithInt(op, va), []);
    AddSubValidIff(WithInt(op, vb), []);
    AddSubValidIff(WithInt(op, vc), []);
  }

  /** A single `op v` line of the make-node test. */
  lemma OneNumberParse(op: string, a: string, v: int)
    requires op == "ADD" || op == "SUB"
    requires a == FormatInt(v) && v != 0
    ensures Assemble([op + " " + a]) == [WithInt(op, v)]
    ensures ProgramValid([WithInt(op, v)], [])
  {
    NumberLine(op, a, v);
    AssembleEach([op + " " + a], [WithInt(op, v)]);
  }

  /** `ADD v`, `NEG`, `NEG` of the NEG test. */
  lemma NegProgram(add: string, neg: string, a: string, v: int)
    requires add == "ADD" && neg == "NEG"
    requires a == FormatInt(v)
    ensures Assemble([add + " " + a, neg, neg]) == [WithInt(add, v), Bare(neg), Bare(neg)]
  {
    NumberLine(add, a, v);
    BareLine(neg);
    Assemble3(add + " " + a, neg, neg, WithInt(add, v), Bare(neg), Bare(neg));
  }

  lemma NegProgramValid(add: string, neg: string, v: int)
    requires add == "ADD" && neg == "NEG" && v != 0
    ensures ProgramValid([WithInt(add, v), Bare(neg), Bare(neg)], [])
  {
    AddSubValidIff(WithInt(add, v), []);
    NoOperandValidIff(Bare(neg), []);
  }

  /** `ADD v`, `SAV`, `ADD w`, `SWP` of the SAV/SWP test. */
  lemma SavSwpProgram(add: string, sav: string, swp: string, a: string, b: string, va: int, vb: int)
    requires add == "ADD" && sav == "SAV" && swp == "SWP"
    requires a == FormatInt(va) && b == FormatInt(vb)
    ensures Assemble([add + " " + a, sav, add + " " + b, swp]) == [WithInt(add, va), Bare(sav), WithInt(add, vb), Bare(swp)]
  {
    NumberLine(add, a, va);
    NumberLine(add, b, vb);
    BareLine(sav);
    BareLine(swp);
    Assemble4(add + " " + a, sav, add + " " + b, swp, WithInt(add, va), Bare(sav), WithInt(add, vb), Bare(swp));
  }

  lemma SavSwpProgramValid(add: string, sav: string, swp: string, va: int, vb: int)
    requires add == "ADD" && sav == "SAV" && swp == "SWP" && va != 0 && vb != 0
    ensures ProgramValid([WithInt(add, va), Bare(sav), WithInt(add, vb), Bare(swp)], [])
  {
    AddSubValidIff(WithInt(add, va), []);
    AddSubValidIff(WithInt(add, vb), []);
    NoOperandValidIff(Bare(sav), []);
    NoOperandValidIff(Bare(swp), []);
  }

  /** n.lines = lines; n.parse_lines(), on a node whose program was still empty and valid. */
  method GiveLines(n: Node, lines: seq<string>, ghost code: seq<Instr>)
    requires n.labels == [] && n.isValid
    requires Assemble(lines) == code && ProgramValid(code, [])
    modifies n
    ensures n.lines == lines && n.code == code && n.labels == [] && n.isValid
    ensures n.Regs() == old(n.Regs())
  {
    n.lines := lines;
    n.ParseLines();
  }

  /** A fresh node given the lines `op a`, `op b`, `op c`, parsed: three `op` instructions, valid. */
  method NumbersNode(op: string, a: string, b: string, c: string, ghost va: int, ghost vb: int, ghost vc: int) returns (n: Node)
    requires op == "ADD" || op == "SUB"
    requires a == FormatInt(va) && b == FormatInt(vb) && c == FormatInt(vc)
    requires va != 0 && vb != 0 && vc != 0
    ensures fresh(n)
    ensures n.code == [WithInt(op, va), WithInt(op, vb), WithInt(op, vc)] && n.isValid
    ensures n.Regs() == Registers(0, 0, 0)
  {
    ThreeNumbersParse(op, a, b, c, va, vb, vc);
    ThreeNumbersValid(op, va, vb, vc);
    n := new Node(0, 0);
    GiveLines(n, [op + " " + a, op + " " + b, op + " " + c], [WithInt(op, va), WithInt(op, vb), WithInt(op, vc)]);
  }

  /** A fresh node given `ADD v`, `NEG`, `NEG` and parsed. */
  method NegNode(add: string, neg: string, a: string, ghost v: int) returns (n: Node)
    requires add == "ADD" && neg == "NEG"
    requires a == FormatInt(v) && v != 0
    ensures fresh(n)
    ensures n.code == [WithInt(add, v), Bare(neg), Bare(neg)] && n.isValid
    ensures n.Regs() == Registers(0, 0, 0)
  {
    NegProgram(add, neg, a, v);
    NegProgramValid(add, neg, v);
    n := new Node(0, 0);
    GiveLines(n, [add + " " + a, neg, neg], [WithInt(add, v), Bare(neg), Bare(neg)]);
  }

  /** A fresh node given `ADD v`, `SAV`, `ADD w`, `SWP` and parsed. */
  method SavSwpNode(add: string, sav: string, swp: string, a: string, b: string, ghost va: int, ghost vb: int) returns (n: Node)
    requires add == "ADD" && sav == "SAV" && swp == "SWP"
    requires a == FormatInt(va) && b == FormatInt(vb) && va != 0 && vb != 0
    ensures fresh(n)
    ensures n.code == [WithInt(add, va), Bare(sav), WithInt(add, vb), Bare(swp)] && n.isValid
    ensures n.Regs() == Registers(0, 0, 0)
  {
    SavSwpProgram(add, sav, swp, a, b, va, vb);
    SavSwpProgramValid(add, sav, swp, va, vb);
    n := new Node(0, 0);
    GiveLines(n, [add + " " + a, sav, add + " " + b, swp], [WithInt(add, va), Bare(sav), WithInt(add, vb), Bare(swp)]);
  }

  /** A fresh node is at its coordinates with zero registers and valid; `ADD 1` parses to ("ADD", 1, None) and stays valid. */
  method TestMakeNode() returns (x: int, y: int, pc: nat, acc: int, bak: int, validBefore: bool, validAfter: bool, code: seq<Instr>)
    ensures x == 0 && y == 0 && pc == 0 && acc == 0 && bak == 0
    ensures validBefore && validAfter
    ensures code == [WithInt("ADD", 1)]
  {
    var add, one := "ADD", "1";
    var n := new Node(0, 0);
    x, y, pc, acc, bak, validBefore := n.xpos, n.ypos, n.pc, n.acc, n.bak, n.isValid;
    OneNumberParse(add, one, 1);
    GiveLines(n, [add + " " + one], [WithInt(add, 1)]);
    validAfter, code := n.isValid, n.code;
  }

  /** `ADD 1`, `ADD 50`, `ADD -3`: pc runs 1, 2, 0, 1 while acc runs 1, 51, 48, 49. */
  method TestAddAndPc() returns (valid: bool, pcs: seq<nat>, accs: seq<int>)
    ensures valid
    ensures pcs == [1, 2, 0, 1] && accs == [1, 51, 48, 49]
  {
    var add, one, fifty, minusThree := "ADD", "1", "50", "-3";
    var n := NumbersNode(add, one, fifty, minusThree, 1, 50, -3);
    valid := n.isValid;
    n.ExecuteNext();
    pcs, accs := [n.pc], [n.acc];
    n.ExecuteNext();
    pcs, accs := pcs + [n.pc], accs + [n.acc];
    n.ExecuteNext();
    pcs, accs := pcs + [n.pc], accs + [n.acc];
    n.ExecuteNext();
    pcs, accs := pcs + [n.pc], accs + [n.acc];
  }

  /** `SUB 1`, `SUB 50`, `SUB -3`: acc runs -1, -51, -48. */
  method TestSub() returns (valid: bool, accs: seq<int>)
    ensures valid
    ensures accs == [-1, -51, -48]
  {
    var sub, one, fifty, minusThree := "SUB", "1", "50", "-3";
    var n := NumbersNode(sub, one, fifty, minusThree, 1, 50, -3);
    valid := n.isValid;
    n.ExecuteNext();
    accs := [n.acc];
    n.ExecuteNext();
    accs := accs + [n.acc];
    n.ExecuteNext();
    accs := accs + [n.acc];
  }

  /** `ADD 50`, `NEG`, `NEG`: acc is -50 after the first NEG and 50 after the second. */
  method TestNeg() returns (valid: bool, afterFirst: int, afterSecond: int)
    ensures valid
    ensures afterFirst == -50 && afterSecond == 50
  {
    var add, neg, fifty := "ADD", "NEG", "50";
    var n := NegNode(add, neg, fifty, 50);
    valid := n.isValid;
    n.ExecuteNext();
    n.ExecuteNext();
    afterFirst := n.acc;
    n.ExecuteNext();
    afterSecond := n.acc;
  }

  /**
   * `ADD 20`, `SAV`, `ADD 50`, `SWP`: after SAV bak equals acc at 20; after the
   * second ADD they differ with bak still 20; after SWP both are 20 again.
   */
  method TestSavSwp() returns (valid: bool, accs: seq<int>, baks: seq<int>)
    ensures valid
    ensures accs == [20, 70, 20] && baks == [20, 20, 20]
  {
    var add, sav, swp, twenty, fifty := "ADD", "SAV", "SWP", "20", "50";
    var n := SavSwpNode(add, sav, swp, twenty, fifty, 20, 50);
    valid := n.isValid;
    n.ExecuteNext();
    n.ExecuteNext();
    accs, baks := [n.acc], [n.bak];
    n.ExecuteNext();
    accs, baks := accs + [n.acc], baks + [n.bak];
    n.ExecuteNext();
    accs, baks := accs + [n.acc], baks + [n.bak];
  }
}
