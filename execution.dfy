/**
 * What Node.execute_next does to the registers, as functions on values: one
 * step dispatches on the opcode at pc, updates acc and bak, and moves pc on by
 * one, back to 0 past the last instruction.
 */
module Execution {
  import opened Assembler

  /** The part of a node that execute_next changes. */
  datatype Registers = Registers(acc: int, bak: int, pc: nat)

  predicate IsOp(ins: Instr, name: string) {
    ins.op == Str(name)
  }

  /** add/sub do `acc += instruction[1]`, which only works for an int in slot 1. */
  predicate Computable(ins: Instr) {
    (IsOp(ins, "ADD") || IsOp(ins, "SUB")) ==> ins.a1.Int?
  }

  /** Every ADD and SUB of the program has an int in slot 1. */
  predicate WellFormed(code: seq<Instr>) {
    forall i :: 0 <= i < |code| ==> Computable(code[i])
  }

  /** execute_next can run: the code is empty, or pc indexes an instruction it can compute. */
  predicate Executable(code: seq<Instr>, r: Registers) {
    code == [] || (r.pc < |code| && Computable(code[r.pc]))
  }

  /** The (acc, bak) that one instruction leaves behind. */
  function Apply(ins: Instr, acc: int, bak: int): (int, int)
    requires Computable(ins)
  {
    if IsOp(ins, "ADD") then (acc + ins.a1.n, bak)
    else if IsOp(ins, "SUB") then (acc - ins.a1.n, bak)
    else if IsOp(ins, "NEG") then (acc * -1, bak)
    else if IsOp(ins, "SAV") then (acc, acc)
    else if IsOp(ins, "SWP") then (bak, bak)
    else (acc, bak)
  }

  /**
   * One call of execute_next. An empty program changes nothing; otherwise pc
   * moves to (pc + 1) mod the program length, so it stays a valid index, and
   * only ADD, SUB, NEG, SAV and SWP touch acc or bak.
   */
  function Step(code: seq<Instr>, r: Registers): (s: Registers)
    requires Executable(code, r)
    ensures code == [] ==> s == r
    ensures code != [] ==> s.pc < |code| && s.pc == (r.pc + 1) % |code|
    ensures code != [] && !(code[r.pc].op in {Str("ADD"), Str("SUB"), Str("NEG"), Str("SAV"), Str("SWP")}) ==>
      s.acc == r.acc && s.bak == r.bak
  {
    if code == [] then r
    else
      var (acc, bak) := Apply(code[r.pc], r.acc, r.bak);
      var pc := r.pc + 1;
      Registers(acc, bak, if pc >= |code| then 0 else pc)
  }

  /** k calls of execute_next in a row. */
  function Run(code: seq<Instr>, r: Registers, k: nat): Registers
    requires WellFormed(code) && (code == [] || r.pc < |code|)
    decreases k
  {
    if k == 0 then r else Run(code, Step(code, r), k - 1)
  }

  /** After k steps pc has moved on k places, modulo the program length. */
  lemma {:induction false} RunPc(code: seq<Instr>, r: Registers, k: nat)
    requires WellFormed(code) && r.pc < |code|
    ensures Run(code, r, k).pc == (r.pc + k) % |code|
    decreases k
  {
    if k == 0 {
      ModUnique(r.pc, |code|, 0, r.pc);
    } else {
      var s := Step(code, r);
      assert Run(code, r, k) == Run(code, s, k - 1);
      RunPc(code, s, k - 1);
      assert s.pc == (r.pc + 1) % |code|;
      ModAddOne(r.pc, k - 1, |code|);
    }
  }

  lemma ModAddOne(p: nat, j: nat, n: nat)
    requires p < n
    ensures ((p + 1) % n + j) % n == (p + j + 1) % n
  {
    if p + 1 == n {
      ModUnique(p + 1, n, 1, 0);
      ModPlusN(j, n);
    } else {
      ModUnique(p + 1, n, 0, p + 1);
    }
  }

  lemma ModPlusN(j: nat, n: nat)
    requires 0 < n
    ensures (j + n) % n == j % n
  {
    var q := j / n;
    assert j == q * n + j % n;
    assert j + n == (q + 1) * n + j % n;
    ModUnique(j + n, n, q + 1, j % n);
  }

  lemma ModUnique(x: int, n: int, q: int, r: int)
    requires 0 < n && 0 <= r < n && x == q * n + r
    ensures x % n == r
  {
    var q', r' := x / n, x % n;
    assert x == q' * n + r';
    if q' > q {
      MulMono(q + 1, q', n);
    } else if q' < q {
      MulMono(q' + 1, q, n);
    }
  }

  lemma MulMono(a: int, b: int, n: int)
    requires a <= b && 0 < n
    ensures a * n <= b * n
  {
    var d := b - a;
    assert d * n >= 0;
    assert b * n == a * n + d * n;
  }

  /** Running a program for as many steps as it has instructions brings pc back where it started. */
  lemma RunCycle(code: seq<Instr>, r: Registers)
    requires WellFormed(code) && r.pc < |code|
    ensures Run(code, r, |code|).pc == r.pc
  {
    RunPc(code, r, |code|);
    ModPlusN(r.pc, |code|);
    ModUnique(r.pc, |code|, 0, r.pc);
  }

  /** On an empty program nothing ever changes. */
  lemma {:induction false} RunEmpty(r: Registers, k: nat)
    ensures Run([], r, k) == r
  {
    if k > 0 {
      RunEmpty(r, k - 1);
    }
  }

  /** NEG negates acc, and NEG twice gives acc back. */
  lemma NegTwice(acc: int, bak: int)
    ensures Apply(Instr(Str("NEG"), Absent, Absent), acc, bak) == (-acc, bak)
    ensures var (a, b) := Apply(Instr(Str("NEG"), Absent, Absent), acc, bak);
            Apply(Instr(Str("NEG"), Absent, Absent), a, b) == (acc, bak)
  {
  }

  /** SUB n undoes ADD n. */
  lemma AddThenSub(n: int, acc: int, bak: int)
    ensures var (a, b) := Apply(Instr(Str("ADD"), Int(n), Absent), acc, bak);
            a == acc + n && Apply(Instr(Str("SUB"), Int(n), Absent), a, b) == (acc, bak)
  {
  }

  /** SAV copies acc to bak; a later SWP brings that value back to acc, whatever happened to acc between. */
  lemma SavThenSwp(acc: int, bak: int, changed: int)
    ensures Apply(Instr(Str("SAV"), Absent, Absent), acc, bak) == (acc, acc)
    ensures Apply(Instr(Str("SWP"), Absent, Absent), changed, acc) == (acc, acc)
  {
  }

  /** Two NEG lines one after the other give acc back after two steps, and leave bak alone. */
  lemma NegNegSteps(code: seq<Instr>, r: Registers)
    requires WellFormed(code) && r.pc < |code|
    requires IsOp(code[r.pc], "NEG") && IsOp(code[(r.pc + 1) % |code|], "NEG")
    ensures Run(code, r, 2).acc == r.acc && Run(code, r, 2).bak == r.bak
  {
    var s := Step(code, r);
    assert Run(code, r, 2) == Run(code, s, 1) == Step(code, s);
  }

  /** The `ADD 1`, `ADD 50`, `ADD -3` program: acc runs 1, 51, 48, 49 while pc runs 1, 2, 0, 1. */
  lemma AddProgramTrace()
    ensures var code := [Instr(Str("ADD"), Int(1), Absent), Instr(Str("ADD"), Int(50), Absent), Instr(Str("ADD"), Int(-3), Absent)];
            var r0 := Registers(0, 0, 0);
            Run(code, r0, 1) == Registers(1, 0, 1) &&
            Run(code, r0, 2) == Registers(51, 0, 2) &&
            Run(code, r0, 3) == Registers(48, 0, 0) &&
            Run(code, r0, 4) == Registers(49, 0, 1)
  {
    var code := [Instr(Str("ADD"), Int(1), Absent), Instr(Str("ADD"), Int(50), Absent), Instr(Str("ADD"), Int(-3), Absent)];
    var r0 := Registers(0, 0, 0);
    var r1 := Step(code, r0);
    var r2 := Step(code, r1);
    var r3 := Step(code, r2);
    var r4 := Step(code, r3);
    assert Run(code, r3, 1) == r4;
    assert Run(code, r2, 2) == r4;
    assert Run(code, r1, 3) == r4;
  }
}
