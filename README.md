# A verified model of the pytis node

pytis simulates a grid of small processors ("nodes"). Each node holds a few
lines of assembly-like source, turns them into three-slot instructions, checks
them, and executes one instruction per call, changing its `acc` and `bak`
registers and its program counter. `main.py` loads the nodes from a text
file, links every node to its grid neighbours and steps each node once.

The model follows what the Python code does. It is written in Dafny:

- `options.dfy` (`Options`): the `Option` and `Result` types.
- `text.dfy` (`Text`): the string operations the code relies on: `strip()`,
  `replace(",", "")`, `split(" ")` and `int()` on a token.
- `assembler.dfy` (`Assembler`): what `parse_lines` and `validate_code` compute,
  as functions. It also holds the `VALID_INSTRUCTIONS` and `VALID_REGISTERS`
  tables, and lemmas about how lines parse and which instructions are accepted.
- `execution.dfy` (`Execution`): what `execute_next` does to `acc`, `bak` and
  `pc`, as a function `Step`, with lemmas about runs of steps.
- `node.dfy` (`Nodes`): the `Node` class. Its methods update the fields in
  place exactly as `node.py` does, and each is proved to agree with the
  functions above.
- `node_tests.dfy` (`NodeTests`): the five unit tests of `tests.py`, as methods
  whose postconditions are the values the tests expect.
- `grid.dfy` (`Grid`): `build_io_tables`, a nested loop over a sequence of
  nodes that writes their adjacency maps.
- `loader.dfy` (`Loader`): the line-splitting part of `load_nodes`.
- `simulator.dfy` (`Simulator`): `simulate`.

A Python tuple slot is modelled as `Field`: `Absent` is None, then `Int(n)` and
`Str(s)`. `Truthy()` follows Python truthiness: None, `0` and `""` are false.

`validate_code` builds `args` from the truthy fields only, and then reads
`args[1]`. So `args[1]` is the second truthy field, not slot 1. Two things
follow: `ADD 0` is rejected, and `ADD 0 5` is accepted. `execute_next`, by
contrast, reads slot 1 directly.

## Model

| member | source | states |
|---|---|---|
| Text.Strip | main.py:12 | definition of `strip()`: `TrimLeft`, then `TrimRight`, over the whitespace of `str.isspace()`; its properties are the two lemmas below |
| Text.TrimLeftSpec | main.py:12 | `strip()`, left half: only leading whitespace is dropped, and the result starts with a non-space |
| Text.TrimRightSpec | main.py:12 | `strip()`, right half: only trailing whitespace is dropped, and the result ends with a non-space |
| Text.Without | node.py:107 | definition of `replace(c, "")`: every `c` dropped, the rest kept in order |
| Text.WithoutKeepsOthers | node.py:107 | `replace(",", "")` leaves no comma and keeps every other character as often as it occurs |
| Text.SplitOnSpace | node.py:107 | `split(" ")` always gives at least one piece |
| Text.SplitOnSpaceSpec | node.py:107 | the pieces of `split(" ")` contain no space, and joining them with single spaces gives the input back |
| Text.SplitJoin | node.py:107 | splitting space-free tokens joined by single spaces gives back exactly those tokens |
| Text.IntStrip | node.py:115-116 | definition of the whitespace `int()` skips around an ASCII token: space, tab, newline, vertical tab, form feed and carriage return, at both ends |
| Text.ParseInt | node.py:115-118 | definition of `int()` on a token: `ReadNumeral` of `IntStrip` of the token, None standing for ValueError |
| Text.ParseIntAccepts | node.py:115-118 | `int(tok)` gives n exactly when the token, with `int()`'s whitespace trimmed from both ends, is an optional sign that agrees with n, any number of leading zeros, then the decimal digits of abs(n) |
| Text.ParseIntRejects | node.py:115-118 | a token containing any character other than a digit, a sign or `int()`'s whitespace raises ValueError |
| Text.SeparatorNotIntSpace | node.py:115-116 | `strip()` drops the separator `\x1c`, but `int("\x1c5")` raises ValueError |
| Text.TrimKeepsOnly | main.py:12 | trimming both ends drops only whitespace: every other character of the input is kept |
| Text.ParseFormat | node.py:115-116 | `int()` of a number written in decimal gives that number back |
| Assembler.ValidInstructions | node.py:27-30 | the opcode table: each opcode with its field count, opcode included |
| Assembler.ValidRegisters | node.py:32-33 | the register names an operand may be |
| Assembler.ToField | node.py:114-118 | definition: a token becomes an int slot when `int()` accepts it, and stays the raw string otherwise |
| Assembler.ToFieldFormat | node.py:115-116 | a decimal numeral token is stored as an int slot |
| Assembler.ToFieldWord | node.py:117-118 | a token holding a non-numeric character stays the raw string |
| Assembler.ParseLine | node.py:104-119 | definition: the tokens of the line after removing commas and splitting at single spaces fill three slots, None where the tokens ran out |
| Assembler.Assemble | node.py:97-119 | definition of `self.code` after `parse_lines`: `ParseLine` of each line, in order |
| Assembler.ParseJoinedTokens | node.py:107-118 | a line made of space-free tokens parses to its first three tokens, with None after the last token; later tokens are dropped |
| Assembler.CommasIgnored | node.py:107 | a line parses the same with its commas removed |
| Assembler.Map | node.py:103-119 | one output per input |
| Assembler.AssembleAt | node.py:103-119 | `code` has one instruction per source line, and instruction i is line i parsed |
| Assembler.AssembleEach | node.py:103-119 | lines whose parses are known assemble to exactly those instructions, in order |
| Assembler.ParseTwoTokens | node.py:107-118 | `op arg` parses to (op, arg, None), each slot converted by `int()` where possible |
| Assembler.ParseMnemonic | node.py:107-118 | a bare mnemonic such as `NEG` parses to (opcode, None, None) |
| Assembler.ParseMnemonicNumber | node.py:107-118 | `ADD -3` and the like parse to (opcode, int, None) |
| Assembler.Arity | node.py:74 | definition: `VALID_INSTRUCTIONS.get(opcode, -1)` |
| Assembler.InstructionValid | node.py:59-94 | definition: the checks `validate_code` makes on one instruction, with `args` the truthy fields |
| Assembler.ProgramValid | node.py:59-94 | definition: every instruction passes those checks |
| Assembler.Truthies | node.py:59-66 | the counted arguments are truthy and at most as many as the fields |
| Assembler.TruthyArgsCases | node.py:59-66 | which of (opcode, arg1, arg2) land in `args`, case by case |
| Assembler.UnknownOpcodeInvalid | node.py:74-77 | an opcode missing from `VALID_INSTRUCTIONS` (`get` gives -1) is always rejected |
| Assembler.NoOperandValidIff | node.py:74-77 | NOP, SAV, SWP and NEG are accepted exactly when neither operand is truthy |
| Assembler.AddSubValidIff | node.py:74-84 | ADD and SUB are accepted exactly when one operand is truthy and it is an int or a register name |
| Assembler.MovValidIff | node.py:74-89 | MOV is accepted exactly when both operands are register names, so a literal source is rejected |
| Assembler.JumpValidIff | node.py:91-94 | a J* instruction is accepted exactly when one operand is truthy and it is in `labels` |
| Assembler.JumpNeverValid | node.py:91-94 | with `labels` empty, as the code always leaves it, every J* instruction is rejected |
| Assembler.LabelLineInvalid | node.py:74-77 | a label line `name:` becomes an unknown opcode and is rejected |
| Assembler.NoOpcodeHasColon | node.py:27-30 | no key of `VALID_INSTRUCTIONS` contains a colon |
| Assembler.AddZeroInvalid | node.py:59-84 | `ADD 0` / `SUB 0` parse to (op, 0, None), but 0 is not truthy, so they are rejected |
| Execution.Apply | node.py:137-146 | definition: what the opcode dispatch of `execute_next` does to acc and bak; properties in `NegTwice`, `AddThenSub`, `SavThenSwp` |
| Execution.Step | node.py:122-151 | an empty program changes nothing; otherwise pc becomes (pc+1) mod len(code), and opcodes other than ADD, SUB, NEG, SAV and SWP leave acc and bak alone |
| Execution.Run | node.py:122-151 | definition: k calls of `execute_next` in a row; properties in `RunPc`, `RunCycle`, `RunEmpty` |
| Execution.RunPc | node.py:149-151 | after k steps pc is (pc + k) mod len(code) |
| Execution.RunCycle | node.py:149-151 | after len(code) steps pc is back where it started |
| Execution.RunEmpty | node.py:127-128 | any number of steps of an empty program changes nothing |
| Execution.NegTwice | node.py:200-204 | NEG negates acc, and NEG twice is the identity |
| Execution.AddThenSub | node.py:178-198 | ADD n adds n to acc, and SUB n takes it back |
| Execution.SavThenSwp | node.py:166-176 | SAV copies acc to bak; a later SWP restores that value to acc whatever acc became in between |
| Execution.NegNegSteps | node.py:137-151 | two consecutive NEG lines give back acc and bak after two steps |
| Execution.AddProgramTrace | tests.py:20-36 | on the code of `ADD 1`, `ADD 50`, `ADD -3`, (acc, pc) runs (1,1), (51,2), (48,0), (49,1) |
| Nodes.Node.constructor | node.py:36-51 | a new node is at (x, y) with zero registers, no lines, no code, no labels, valid, and all four neighbours None |
| Nodes.Node.ParseLines | node.py:96-120 | `code` becomes the lines assembled; `is_valid` stays true only if it was true and every instruction passes |
| Nodes.Node.ValidateCode | node.py:54-94 | `is_valid` is cleared when some instruction fails, and nothing else changes |
| Nodes.Node.ExecuteNext | node.py:122-151 | the registers become `Step` of the old ones; only acc, bak and pc can change |
| Nodes.Node.Sav | node.py:166-170 | bak becomes acc |
| Nodes.Node.Swp | node.py:172-176 | acc becomes bak |
| Nodes.Node.Add | node.py:178-187 | acc grows by the literal |
| Nodes.Node.Sub | node.py:189-198 | acc shrinks by the literal |
| Nodes.Node.Neg | node.py:200-204 | acc is negated |
| Nodes.BuildInstruction | node.py:104-119 | the three slots filled one by one give the parsed instruction of the line |
| Nodes.TruthyFields | node.py:60-66 | the inner loop of `validate_code` yields the truthy fields in order and their count |
| NodeTests.NumberLine | node.py:107-118 | `ADD v` / `SUB v` parse to (op, v, None), which is accepted exactly when v is not 0 |
| NodeTests.BareLine | node.py:107-118 | `NOP`, `SAV`, `SWP`, `NEG` parse to (op, None, None), which is accepted |
| NodeTests.OneNumberParse | tests.py:7-18 | the single line `ADD 1` assembles to [("ADD", 1, None)], which is accepted |
| NodeTests.ThreeNumbersParse | tests.py:20-48 | the three-line ADD and SUB programs of the tests assemble as expected |
| NodeTests.ThreeNumbersValid | tests.py:20-48 | those programs pass `validate_code` |
| NodeTests.NegProgram | tests.py:50-58 | `ADD 50`, `NEG`, `NEG` assembles as expected |
| NodeTests.NegProgramValid | tests.py:50-58 | and passes `validate_code` |
| NodeTests.SavSwpProgram | tests.py:60-75 | `ADD 20`, `SAV`, `ADD 50`, `SWP` assembles as expected |
| NodeTests.SavSwpProgramValid | tests.py:60-75 | and passes `validate_code` |
| NodeTests.GiveLines | tests.py:15-16 | `n.lines = ...; n.parse_lines()` leaves the expected code, still valid, with registers untouched |
| NodeTests.NumbersNode | tests.py:21-23 | a fresh node given a three-line ADD or SUB program holds its code and is valid |
| NodeTests.NegNode | tests.py:51-53 | the NEG test's node after parsing |
| NodeTests.SavSwpNode | tests.py:61-63 | the SAV/SWP test's node after parsing |
| NodeTests.TestMakeNode | tests.py:7-18 | position (0, 0), zero registers, valid before and after parsing `ADD 1`, and code `[("ADD", 1, None)]` (a list, not the dict the test expects) |
| NodeTests.TestAddAndPc | tests.py:20-36 | pc runs 1, 2, 0, 1 and acc runs 1, 51, 48, 49 |
| NodeTests.TestSub | tests.py:38-48 | acc runs -1, -51, -48 |
| NodeTests.TestNeg | tests.py:50-58 | acc is -50 after the first NEG and 50 after the second |
| NodeTests.TestSavSwp | tests.py:60-75 | bak stays 20; acc is 20, then 70, then 20 |
| Grid.Match | main.py:45-52 | the elif chain records `checking` under a direction exactly when it sits one step away in that direction |
| Grid.MatchIff | main.py:45-52 | the order of the elif branches does not matter |
| Grid.NeverOwnNeighbour | main.py:45-52 | a node never matches itself |
| Grid.Neighbours | main.py:44-52 | definition: a node's map after the inner loop has looked at the nodes of the list in order; properties in the lemmas below |
| Grid.LastAt | main.py:44-52 | the position of the last node in list order one step away in a direction, or none |
| Grid.NeighbourIsLastMatch | main.py:44-52 | after the inner loop, each direction holds the last matching node in list order, or keeps its prior value (None from the constructor) |
| Grid.NeighboursKeys | main.py:44-52 | only the four existing direction keys are written |
| Grid.NeighboursIdempotent | main.py:43-52 | running the inner loop twice for the same node gives the same map as once |
| Grid.NoSelfNeighbour | main.py:45-52 | no node is ever recorded as its own neighbour |
| Grid.EntryIff | main.py:44-52 | with unique positions, b is under d exactly when b is in the list and one step away in direction d |
| Grid.RightLeftSymmetric | main.py:45-48 | with unique positions, a.RIGHT is b exactly when b.LEFT is a |
| Grid.DownUpSymmetric | main.py:49-52 | with unique positions, a.DOWN is b exactly when b.UP is a |
| Grid.AssignNeighbours | main.py:44-52 | the inner loop leaves the node's map as `Neighbours` computes it, and changes no other field |
| Grid.BuildIoTables | main.py:33-52 | every node's map becomes `Neighbours` of its prior map; only adjacency maps change |
| Loader.CharInt | main.py:21 | `int()` of one character is its digit value, or an error |
| Loader.HeaderCoords | main.py:20-21 | the coordinates read from a header are single digits |
| Loader.HeaderCoordsInt | main.py:20-21 | the coordinates are `int(temp[1])` and `int(temp[3])` of the header with its spaces removed; a header shorter than four characters there, or either `int()` failing, raises |
| Loader.TwoDigitYHeader | main.py:20-21 | `[1,10]` is read as (1, 1) |
| Loader.TwoDigitXHeader | main.py:20-21 | `[10,2]` is rejected, because the comma is read as the y coordinate |
| Loader.Feed | main.py:19-25 | definition: what one stripped line does to the nodes built so far, or the error it raises |
| Loader.FeedHeader | main.py:19-22 | a header line appends a new node with no lines, at the coordinates read from the header |
| Loader.FeedBody | main.py:23-25 | any other line changes only the newest node, which gets the line when it is not blank |
| Loader.FeedKeeps | main.py:19-25 | a node that is not the newest is never changed again |
| Loader.Load | main.py:17-25 | definition: `Feed` over the stripped lines in order, starting from no nodes, keeping the first failure |
| Loader.LoadCoordsDigits | main.py:19-22 | every loaded node has single-digit coordinates |
| Loader.LoadFailureSticks | main.py:17-25 | the error raised is the one at the first bad line |
| Loader.LoadHeaderCount | main.py:19-22 | there is one node per header line |
| Loader.LoadKeepsBodyLines | main.py:12-25 | the nodes' lines, read node after node, are exactly the stripped non-blank non-header lines, in file order |
| Loader.LoadSectionLines | main.py:17-25 | node i has the coordinates of the i-th header line and exactly the body lines that come after that header and before the next one (or the end), in order |
| Loader.LoadEmptyIffNoHeader | main.py:17-25 | no node exists exactly while no header has been seen |
| Loader.LoadSucceedsIff | main.py:17-25 | loading succeeds exactly when every header is well formed and no body line comes before the first header |
| Loader.LoadNodes | main.py:7-30 | the nodes built agree with `Load`: same count, coordinates and lines, fresh and distinct, other fields as created; the same error when `Load` fails |
| Loader.AppendLine | main.py:25 | the newest node gets the line, and no other node changes |
| Simulator.ExecuteAll | main.py:66-68 | each node ends one `Step` on from its starting registers, whatever the other nodes did |
| Simulator.LinkAndStep | main.py:64-68 | on freshly loaded nodes: adjacency from `Neighbours`, registers still zero because the code is empty |
| Simulator.Simulate | main.py:60-68 | the loaded nodes, linked and stepped once, keep their coordinates and lines; their registers stay 0 and their maps are the computed neighbours; the load error is passed on |

## Left out

- File and console I/O: `open`/`readlines` in `load_nodes` (it takes the file's lines as a parameter), every `print`, `__str__` and `print_adjacency`.
- `send_output` and `get_input`: they read a `self.outputs` attribute that does not exist.
- The `type(val) == Node` branches of `add` and `sub`: parsed operands are only ints or strings, so these branches never run.
- `update_output_table`: it is an empty stub. `mode_type.py` and the unused `last`, `mode` and `call_stack` fields are left out too.
- Nodes.Node.ExecuteNext: requires an int in slot 1 for ADD and SUB (`Computable`). With a register name there, Python fails at `self.acc += "ACC"`, and the model gives that case no meaning. It also requires `pc < len(code)` for non-empty code (`Executable`). Python raises IndexError at `self.code[self.pc]` when `parse_lines` is called again with fewer lines than pc has reached; no caller does that.
- Text.ParseIntAccepts: `int()` is modelled on ASCII tokens: an optional sign and ASCII digits, with space and tab through carriage return skipped at both ends. Python also accepts underscores between digits. When a token holds a non-ASCII character, Python first turns every non-ASCII whitespace character into a space and every non-ASCII decimal digit into its ASCII digit, keeping ASCII characters, `\x1c`-`\x1f` included, as they are; the model does not.
- Text.TrimLeftSpec: `strip()` removes only the ASCII whitespace characters and the separators `\x1c`-`\x1f`, not the other Unicode spaces Python strips.
- Labels, jumps, JRO, the MOV hand-off between nodes and skipping invalid nodes: none of these is implemented. `labels` is never filled in, J* and MOV only advance pc, and `execute_next` and `simulate` never look at `is_valid`. The model does the same.
- NodeTests.TestMakeNode: tests.py:18 expects `code` to be the dict `{0: ...}`. `parse_lines` builds a list, and the model follows the code.
- Simulator.ExecuteAll: requires the nodes to be distinct objects. `load_nodes` always builds them so, and a node listed twice would be stepped twice.
- Some behaviour of the code limits what a program can do, and the model keeps it as written:
  - labels are never recorded, so label lines and all jumps are invalid;
  - a line is split on single spaces after commas are removed, so empty tokens can occur;
  - MOV needs two register names;
  - code is a list, not a map from line numbers;
  - invalid nodes still execute.
