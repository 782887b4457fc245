/**
 * The Node class: one grid processor with its source lines, its assembled code,
 * the acc and bak registers, a program counter, a validity flag and the map of
 * its four neighbours. parse_lines, validate_code and execute_next update the
 * fields in place; the functions of Assembler and Execution say what they compute.
 */
module Nodes {
  import opened Assembler
  import opened Execution

  /** The keys of the adjacency dictionary. */
  datatype Direction = Left | Right | Up | Down

  const AllDirections: set<Direction> := {Left, Right, Up, Down}

  /** The adjacency map a node is created with: every direction leads nowhere. */
  function NoNeighbours(): map<Direction, Node?> {
    map[Left := null, Right := null, Up := null, Down := null]
  }

  class Node {
    const xpos: int
    const ypos: int
    var acc: int
    var bak: int
    var lines: seq<string>
    var code: seq<Instr>
    var labels: seq<string>
    var isValid: bool
    var adjacency: map<Direction, Node?>
    var pc: nat

    /** A fresh node at (x, y): zero registers, no source, no code, valid, no neighbours. */
    constructor (x: int, y: int)
      ensures xpos == x && ypos == y
      ensures acc == 0 && bak == 0 && pc == 0
      ensures lines == [] && code == [] && labels == [] && isValid
      ensures adjacency == NoNeighbours()
    {
      xpos, ypos := x, y;
      acc, bak := 0, 0;
      lines, code, labels := [], [], [];
      isValid := true;
      adjacency := NoNeighbours();
      pc := 0;
    }

    /** The registers execute_next works on. */
    function Regs(): Registers
      reads this
    {
      Registers(acc, bak, pc)
    }

    /**
     * Rebuilds code from lines, one three-slot instruction per line, then runs
     * validate_code. is_valid can only go from true to false.
     */
    method ParseLines()
      modifies this`code, this`isValid
      ensures code == Assemble(lines)
      ensures isValid == (old(isValid) && ProgramValid(code, labels))
    {
      code := [];
      for k := 0 to |lines|
        invariant code == Assemble(lines[..k])
        invariant isValid == old(isValid)
      {
        var instruction := BuildInstruction(lines[k]);
        assert lines[..k + 1][..k] == lines[..k];
        assert Assemble(lines[..k + 1]) == Assemble(lines[..k]) + [ParseLine(lines[k])];
        code := code + [instruction];
      }
      assert lines[..|lines|] == lines;
      ValidateCode();
    }

    /**
     * Checks the instructions in order and clears is_valid at the first one
     * that fails, leaving the rest unchecked; sets nothing else.
     */
    method ValidateCode()
      modifies this`isValid
      ensures isValid == (old(isValid) && ProgramValid(code, labels))
    {
      for k := 0 to |code|
        invariant isValid == old(isValid)
        invariant forall j :: 0 <= j < k ==> InstructionValid(code[j], labels)
      {
        var instruction := code[k];
        var args, instructLen := TruthyFields(instruction);
        var opcode := instruction.op;
        if Arity(opcode) != instructLen {
          isValid := false;
          return;
        }
        if opcode == Str("ADD") || opcode == Str("SUB") {
          if args[1].Int? {
            continue;
          } else if !IsRegister(args[1]) {
            isValid := false;
            return;
          }
        } else if opcode == Str("MOV") {
          if !IsRegister(args[1]) || !IsRegister(args[2]) {
            isValid := false;
            return;
          }
        } else if IsJump(opcode) {
          if !IsLabel(args[1], labels) {
            isValid := false;
            return;
          }
        }
      }
    }

    /**
     * One step: nothing on an empty program; otherwise the instruction at pc
     * acts on acc and bak and pc moves to the next line, wrapping to 0. Only
     * acc, bak and pc can change; is_valid is not looked at.
     */
    method ExecuteNext()
      requires Executable(code, Regs())
      modifies this`acc, this`bak, this`pc
      ensures Regs() == Step(code, old(Regs()))
    {
      if code == [] {
        return;
      }
      var instruction := code[pc];
      var opcode := instruction.op;
      if opcode == Str("ADD") {
        Add(instruction.a1.n);
      } else if opcode == Str("SUB") {
        Sub(instruction.a1.n);
      } else if opcode == Str("NEG") {
        Neg();
      } else if opcode == Str("SAV") {
        Sav();
      } else if opcode == Str("SWP") {
        Swp();
      }
      pc := pc + 1;
      if pc >= |code| {
        pc := 0;
      }
    }

    /** SAV: bak takes the value of acc. */
    method Sav()
      modifies this`bak
      ensures bak == acc
    {
      bak := acc;
    }

    /** SWP: acc takes the value of bak. */
    method Swp()
      modifies this`acc
      ensures acc == bak
    {
      acc := bak;
    }

    /** ADD with a literal. */
    method Add(val: int)
      modifies this`acc
      ensures acc - old(acc) == val
    {
      acc := acc + val;
    }

    /** SUB with a literal. */
    method Sub(val: int)
      modifies this`acc
      ensures old(acc) - acc == val
    {
      acc := acc - val;
    }

    /** NEG: acc times -1. */
    method Neg()
      modifies this`acc
      ensures acc + old(acc) == 0
    {
      acc := acc * -1;
    }
  }

  /**
   * The body of parse_lines' loop: the line's tokens go into three slots one by
   * one, a token as int when it parses as one, None where the tokens ran out.
   */
  method BuildInstruction(line: string) returns (instruction: Instr)
    ensures instruction == ParseLine(line)
  {
    var slots: seq<Field> := [];
    var args := Tokens(line);
    for i := 0 to 3
      invariant |slots| == i
      invariant forall j :: 0 <= j < i ==> slots[j] == Slot(args, j)
    {
      if i > |args| - 1 {
        slots := slots + [Absent];
      } else {
        slots := slots + [ToField(args[i])];
      }
    }
    instruction := Instr(slots[0], slots[1], slots[2]);
  }

  /** The inner loop of validate_code: the truthy fields, in order, and how many there are. */
  method TruthyFields(instruction: Instr) returns (args: seq<Field>, instructLen: nat)
    ensures args == TruthyArgs(instruction)
    ensures instructLen == |args|
  {
    args, instructLen := [], 0;
    var fields := instruction.Fields();
    for k := 0 to |fields|
      invariant instructLen == |args|
      invariant args + Truthies(fields[k..]) == Truthies(fields)
    {
      assert fields[k..][0] == fields[k] && fields[k..][1..] == fields[k + 1..];
      if fields[k].Truthy() {
        args := args + [fields[k]];
        instructLen := instructLen + 1;
      }
    }
  }
}
