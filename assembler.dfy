/**
 * What Node.parse_lines and Node.validate_code compute, as functions on values.
 * A source line becomes a three-slot instruction (opcode, arg1, arg2); the
 * instructions are then checked against the arity table and the operand rules.
 */
module Assembler {
  import opened Options
  import opened Text

  /** One tuple slot: Python's None, an int, or a str. */
  datatype Field = Absent | Int(n: int) | Str(s: string) {
    /** Python truthiness: None, 0 and "" are false. */
    predicate Truthy() {
      match this
      case Absent => false
      case Int(n) => n != 0
      case Str(s) => s != ""
    }
  }

  /** The (opcode, arg1, arg2) tuple. */
  datatype Instr = Instr(op: Field, a1: Field, a2: Field) {
    function Fields(): seq<Field> {
      [op, a1, a2]
    }
  }

  /** The VALID_INSTRUCTIONS table: each opcode with its field count, opcode included. */
  const ValidInstructions: map<string, int> :=
    map["NOP" := 1, "MOV" := 3, "SWP" := 1, "SAV" := 1,
        "ADD" := 2, "SUB" := 2, "NEG" := 1, "JMP" := 2,
        "JEZ" := 2, "JNZ" := 2, "JGZ" := 2, "JLZ" := 2,
        "JRO" := 2]

  /** The VALID_REGISTERS list. */
  const ValidRegisters: seq<string> := ["ACC", "NIL", "LEFT", "RIGHT", "UP", "DOWN", "ANY", "LAST"]

  /** A token becomes an int when int() accepts it, and stays the raw string otherwise. */
  function ToField(tok: string): Field {
    match ParseInt(tok)
    case Some(n) => Int(n)
    case None => Str(tok)
  }

  lemma ToFieldFormat(n: int)
    ensures ToField(FormatInt(n)) == Int(n)
  {
    ParseFormat(n);
  }

  /** A token with a character other than a digit, a sign or whitespace stays a string. */
  lemma ToFieldWord(tok: string, i: nat)
    requires i < |tok| && !IsDigit(tok[i]) && tok[i] != '+' && tok[i] != '-' && !IsIntSpace(tok[i])
    ensures ToField(tok) == Str(tok)
  {
    ParseIntRejects(tok, i);
  }

  /** The tokens of a line: commas removed, then split at every single space. */
  function Tokens(line: string): seq<string> {
    SplitOnSpace(Without(line, ','))
  }

  /** Slot i of the tuple: None when there is no i-th token. */
  function Slot(args: seq<string>, i: nat): Field {
    if i > |args| - 1 then Absent else ToField(args[i])
  }

  /** One source line as an instruction. */
  function ParseLine(line: string): Instr {
    var args := Tokens(line);
    Instr(Slot(args, 0), Slot(args, 1), Slot(args, 2))
  }

  /** f applied to every element, in order. */
  function Map<A, B>(f: A -> B, s: seq<A>): (r: seq<B>)
    ensures |r| == |s|
  {
    if s == [] then [] else Map(f, s[..|s| - 1]) + [f(s[|s| - 1])]
  }

  lemma {:induction false} MapAt<A, B>(f: A -> B, s: seq<A>, i: nat)
    requires i < |s|
    ensures Map(f, s)[i] == f(s[i])
  {
    if i < |s| - 1 {
      MapAt(f, s[..|s| - 1], i);
    }
  }

  /** self.code after parse_lines: one instruction per source line. */
  function Assemble(lines: seq<string>): seq<Instr> {
    Map(ParseLine, lines)
  }

  /** The assembled code has one instruction per line, and instruction i is line i parsed. */
  lemma AssembleAt(lines: seq<string>, i: nat)
    requires i < |lines|
    ensures |Assemble(lines)| == |lines|
    ensures Assemble(lines)[i] == ParseLine(lines[i])
  {
    MapAt(ParseLine, lines, i);
  }

  /**
   * A line written as tokens without spaces or commas, joined by single spaces,
   * parses to the first three tokens, None in the slots past the last token;
   * any tokens after the third are dropped.
   */
  lemma ParseJoinedTokens(toks: seq<string>)
    requires |toks| >= 1
    requires forall k :: 0 <= k < |toks| ==> ' ' !in toks[k] && ',' !in toks[k]
    ensures ParseLine(JoinOnSpace(toks)).op == ToField(toks[0])
    ensures ParseLine(JoinOnSpace(toks)).a1 == (if |toks| >= 2 then ToField(toks[1]) else Absent)
    ensures ParseLine(JoinOnSpace(toks)).a2 == (if |toks| >= 3 then ToField(toks[2]) else Absent)
  {
    JoinWithoutComma(toks);
    WithoutAbsent(JoinOnSpace(toks), ',');
    SplitJoin(toks);
  }

  lemma {:induction false} JoinWithoutComma(toks: seq<string>)
    requires forall k :: 0 <= k < |toks| ==> ',' !in toks[k]
    ensures ',' !in JoinOnSpace(toks)
  {
    if |toks| > 1 {
      JoinWithoutComma(toks[1..]);
    }
  }

  /** Commas never matter: a line parses as it does with its commas removed. */
  lemma CommasIgnored(line: string)
    ensures ParseLine(line) == ParseLine(Without(line, ','))
  {
    WithoutKeepsOthers(line, ',');
    WithoutAbsent(Without(line, ','), ',');
  }

  /** VALID_INSTRUCTIONS.get(opcode, -1) */
  function Arity(op: Field): int {
    if op.Str? && op.s in ValidInstructions then ValidInstructions[op.s] else -1
  }

  /** The truthy fields in order (the `args` list validate_code builds). */
  function Truthies(fs: seq<Field>): (r: seq<Field>)
    ensures |r| <= |fs|
    ensures forall k :: 0 <= k < |r| ==> r[k].Truthy()
  {
    if fs == [] then []
    else if fs[0].Truthy() then [fs[0]] + Truthies(fs[1..])
    else Truthies(fs[1..])
  }

  function TruthyArgs(ins: Instr): seq<Field> {
    Truthies(ins.Fields())
  }

  predicate IsRegister(f: Field) {
    f.Str? && f.s in ValidRegisters
  }

  predicate IsLabel(f: Field, labels: seq<string>) {
    f.Str? && f.s in labels
  }

  /** opcode.startswith("J") */
  predicate IsJump(op: Field) {
    op.Str? && |op.s| > 0 && op.s[0] == 'J'
  }

  /** One instruction passes every check of validate_code. */
  predicate InstructionValid(ins: Instr, labels: seq<string>) {
    var args := TruthyArgs(ins);
    Arity(ins.op) == |args| &&
    if ins.op == Str("ADD") || ins.op == Str("SUB") then args[1].Int? || IsRegister(args[1])
    else if ins.op == Str("MOV") then IsRegister(args[1]) && IsRegister(args[2])
    else if IsJump(ins.op) then IsLabel(args[1], labels)
    else true
  }

  /** Every instruction passes, so validate_code leaves is_valid alone. */
  predicate ProgramValid(code: seq<Instr>, labels: seq<string>) {
    forall i :: 0 <= i < |code| ==> InstructionValid(code[i], labels)
  }

  /** The truthy fields of an instruction, case by case on which operands are truthy. */
  lemma TruthyArgsCases(ins: Instr)
    ensures ins.op.Truthy() && !ins.a1.Truthy() && !ins.a2.Truthy() ==> TruthyArgs(ins) == [ins.op]
    ensures ins.op.Truthy() && ins.a1.Truthy() && !ins.a2.Truthy() ==> TruthyArgs(ins) == [ins.op, ins.a1]
    ensures ins.op.Truthy() && !ins.a1.Truthy() && ins.a2.Truthy() ==> TruthyArgs(ins) == [ins.op, ins.a2]
    ensures ins.op.Truthy() && ins.a1.Truthy() && ins.a2.Truthy() ==> TruthyArgs(ins) == [ins.op, ins.a1, ins.a2]
    ensures !ins.op.Truthy() ==> |TruthyArgs(ins)| <= 2
  {
    var fs := ins.Fields();
    assert fs[1..] == [ins.a1, ins.a2];
    assert fs[1..][1..] == [ins.a2];
    assert [ins.a2][1..] == [];
    var t2 := if ins.a2.Truthy() then [ins.a2] else [];
    assert Truthies([ins.a2]) == t2;
    var t1 := (if ins.a1.Truthy() then [ins.a1] else []) + t2;
    assert Truthies([ins.a1, ins.a2]) == t1;
    assert TruthyArgs(ins) == (if ins.op.Truthy() then [ins.op] else []) + t1;
  }

  /** An opcode missing from the table, a label line such as `foo:` among them, is always rejected. */
  lemma UnknownOpcodeInvalid(ins: Instr, labels: seq<string>)
    requires !(ins.op.Str? && ins.op.s in ValidInstructions)
    ensures !InstructionValid(ins, labels)
  {
  }

  /** NOP, SAV, SWP and NEG are accepted exactly when neither operand is truthy. */
  lemma NoOperandValidIff(ins: Instr, labels: seq<string>)
    requires ins.op in {Str("NOP"), Str("SAV"), Str("SWP"), Str("NEG")}
    ensures InstructionValid(ins, labels) <==> !ins.a1.Truthy() && !ins.a2.Truthy()
  {
    TruthyArgsCases(ins);
  }

  /**
   * ADD and SUB are accepted exactly when one operand is truthy and that one is
   * an int or a register name; a zero literal is not truthy, so `ADD 0` fails.
   */
  lemma AddSubValidIff(ins: Instr, labels: seq<string>)
    requires ins.op == Str("ADD") || ins.op == Str("SUB")
    ensures InstructionValid(ins, labels) <==>
      ins.a1.Truthy() != ins.a2.Truthy() &&
      var v := if ins.a1.Truthy() then ins.a1 else ins.a2;
      v.Int? || IsRegister(v)
  {
    TruthyArgsCases(ins);
  }

  /** MOV is accepted exactly when both operands are register names; a literal source is rejected. */
  lemma MovValidIff(ins: Instr, labels: seq<string>)
    requires ins.op == Str("MOV")
    ensures InstructionValid(ins, labels) <==> IsRegister(ins.a1) && IsRegister(ins.a2)
  {
    TruthyArgsCases(ins);
    if IsRegister(ins.a1) {
      assert ins.a1.Truthy();
    }
    if IsRegister(ins.a2) {
      assert ins.a2.Truthy();
    }
  }

  /** A jump is accepted exactly when one operand is truthy and names a known label. */
  lemma JumpValidIff(ins: Instr, labels: seq<string>)
    requires ins.op in {Str("JMP"), Str("JEZ"), Str("JNZ"), Str("JGZ"), Str("JLZ"), Str("JRO")}
    ensures InstructionValid(ins, labels) <==>
      ins.a1.Truthy() != ins.a2.Truthy() &&
      IsLabel(if ins.a1.Truthy() then ins.a1 else ins.a2, labels)
  {
    TruthyArgsCases(ins);
    assert IsJump(ins.op);
  }

  /** With no labels recorded, every instruction whose opcode starts with J is rejected. */
  lemma JumpNeverValid(ins: Instr)
    requires IsJump(ins.op)
    ensures !InstructionValid(ins, [])
  {
    if ins.op.s in ValidInstructions {
      TruthyArgsCases(ins);
    }
  }

  /** A label definition line `name:` parses to an unknown opcode and is rejected. */
  lemma LabelLineInvalid(name: string, labels: seq<string>)
    requires ' ' !in name && ',' !in name
    ensures ParseLine(name + ":").op == Str(name + ":")
    ensures !InstructionValid(ParseLine(name + ":"), labels)
  {
    var w := name + ":";
    assert ' ' !in w && ',' !in w;
    ParseJoinedTokens([w]);
    assert JoinOnSpace([w]) == w;
    assert w[|w| - 1] == ':';
    ToFieldWord(w, |w| - 1);
    assert ParseLine(w).op == Str(w);
    NoOpcodeHasColon();
    assert w !in ValidInstructions;
    UnknownOpcodeInvalid(ParseLine(w), labels);
  }

  lemma NoOpcodeHasColon()
    ensures forall k :: k in ValidInstructions ==> ':' !in k
  {
    assert ValidInstructions.Keys == {"NOP", "MOV", "SWP", "SAV", "ADD", "SUB", "NEG", "JMP", "JEZ", "JNZ", "JGZ", "JLZ", "JRO"};
  }

  /**
   * `ADD 0` and `SUB 0`, with any numeral for zero, have only one truthy field
   * and are rejected.
   */
  lemma AddZeroInvalid(op: string, arg: string, labels: seq<string>)
    requires op == "ADD" || op == "SUB"
    requires ' ' !in arg && ',' !in arg && ParseInt(arg) == Some(0)
    ensures ParseLine(op + " " + arg) == Instr(Str(op), Int(0), Absent)
    ensures !InstructionValid(ParseLine(op + " " + arg), labels)
  {
    ParseTwoTokens(op, arg);
    ToFieldWord(op, 0);
    AddSubValidIff(ParseLine(op + " " + arg), labels);
  }

  /** `op arg` with no spaces or commas in either token. */
  lemma ParseTwoTokens(op: string, arg: string)
    requires ' ' !in op && ',' !in op && ' ' !in arg && ',' !in arg
    ensures ParseLine(op + " " + arg) == Instr(ToField(op), ToField(arg), Absent)
  {
    assert JoinOnSpace([op, arg]) == op + " " + arg;
    ParseJoinedTokens([op, arg]);
  }

  /** A bare mnemonic such as `NEG` is the opcode alone, both operand slots None. */
  lemma ParseMnemonic(op: string)
    requires ' ' !in op && ',' !in op && op != [] && 'A' <= op[0] <= 'Z'
    ensures ParseLine(op) == Instr(Str(op), Absent, Absent)
  {
    assert JoinOnSpace([op]) == op;
    ParseJoinedTokens([op]);
    ToFieldWord(op, 0);
  }

  /** A mnemonic followed by a numeral such as `ADD -3` carries the number as an int. */
  lemma ParseMnemonicNumber(op: string, arg: string, v: int)
    requires ' ' !in op && ',' !in op && op != [] && 'A' <= op[0] <= 'Z'
    requires arg == FormatInt(v)
    ensures ParseLine(op + " " + arg) == Instr(Str(op), Int(v), Absent)
  {
    assert ' ' !in arg && ',' !in arg by {
      if v < 0 {
        assert arg == "-" + FormatNat(-v);
      }
    }
    ParseTwoTokens(op, arg);
    ToFieldWord(op, 0);
    ToFieldFormat(v);
  }

  /** Assembling lines whose parses are known gives exactly those instructions. */
  lemma AssembleEach(lines: seq<string>, code: seq<Instr>)
    requires |lines| == |code|
    requires forall i :: 0 <= i < |lines| ==> ParseLine(lines[i]) == code[i]
    ensures Assemble(lines) == code
  {
    forall i | 0 <= i < |lines|
      ensures Assemble(lines)[i] == code[i]
    {
      AssembleAt(lines, i);
    }
    if lines != [] {
      AssembleAt(lines, 0);
    }
  }
}
