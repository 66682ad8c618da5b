# suite core, modelled in Dafny

This project models five sequential components of the `suite` Java
repository (a logic-programming system with a Weiqi player) and proves
properties of each model.

- **Logic VM opcode step** (`LogicVM`, logic_executor.dfy). This is the
  `LogicInstructionExecutor.execute` step for BIND, BIND-UNDO, CUT-BEGIN,
  CUT-END, CUT-FAIL and PROVE-SYS. The executor is a class with the
  bind-point array, `bsp` and the cut-point list. It works on a binding
  journal, the frame registers, the instruction pointer of the current
  closure and the call stack. `Execute` is proved against a pure step
  function, `Step`, over a snapshot of that state. Lemmas about `Step`
  state what each opcode does.
- **Instruction-code decoder and executor** (`InstructionCode`,
  instruction_code.dfy). This covers:
  - the sixteen opcode codes and their name table;
  - splitting a separator spine into clauses, and each clause into parts;
  - decoding a clause (`parseInstruction`), including the EVALUATE to
    EVAL-ADD rewrite;
  - the constructor's decoding loop, which runs with the operand indexing
    as written and as corrected (see Findings);
  - the one-step `execute` over 256 registers.
- **Term formatter** (`Formatting`, formatter.dfy). It covers
  precedence- and associativity-driven parenthesisation, and the quoting of
  atoms and strings with quote and `%` doubling. The methods that append to
  a `StringBuilder` are proved against a pure rendering function.
- **Weiqi settings and board storage** (`Weiqi`, weiqi.dfy). It covers:
  - the board size and its row shift (`adjustSize`);
  - `Occupation` with `opponent` and `display`;
  - coordinates;
  - the generic `Array` with `get`, `set`, copying and `equals`.
- **Weiqi board rules** (`BoardRules`, board_spec.dfy; `Boards`,
  board.dfy). `BoardRules` gives the rules as functions over the board's
  contents: paths, groups, liberties, the marked liberty search, captures
  and a whole move. The `Board` class performs `hasBreath`, `findGroup`,
  `killIfDead` and `move` in place on its array, and is proved against
  those functions.
- **Utilities** (`Utils`, util.dfy). These are `truncate`, `unique`,
  `isBlank`, the null-safe `equals`/`compare`/`hashCode`, `map`, `substr`
  and `Pair`.

Shared modules:
- `Wrappers` holds `Option` and `Result`. Java's `null` becomes `None`, and
  a thrown exception becomes a `Failure` or a fault result.
- `Terms` holds the term datatype (atoms, integers, strings, binary trees
  and references) and operators.
- `JavaInts` holds 32-bit wrap-around and the `(short)` cast.

Collaborators that are not part of this model become parameters:
- the outcome of `Binder.bind` and the journal entries it records;
- the outcome of the system-predicate call;
- the operator table (`TermOp.values()`);
- the variable prefix (`Generalizer.variablePrefix`);
- the separator and `+` operators (`TermOp.SEP___`, `TermOp.PLUS__`).

The `Journal` class is modelled as a sequence of entries. Its point in time
is the sequence's length, and `undoBinds(p)` truncates the sequence to `p`.

## Model

| member | source | states |
|---|---|---|
| LogicVM.LogicInstructionExecutor.Execute | src/main/java/org/instructionexecutor/LogicInstructionExecutor.java:35-75 | The returned csp/dsp, the fault thrown, or the delegation to the base executor match `Step` on the old state. The new journal, bind points, bsp, cut points, registers, ip and call stack are `Step`'s new state; dsp is returned unchanged |
| LogicVM.Journal.UndoBinds | src/main/java/org/instructionexecutor/LogicInstructionExecutor.java:47-65 | Undoing to a point truncates the journal to that length; undoing to a point at or past the end changes nothing |
| LogicVM.StepPreservesWf | src/main/java/org/instructionexecutor/LogicInstructionExecutor.java:22-75 | Every non-faulting opcode keeps the state well formed: 4096 bind points, `0 <= bsp <= 4096`, csp within the call stack, and cut points recording stack positions within it |
| LogicVM.BindPushes | src/main/java/org/instructionexecutor/LogicInstructionExecutor.java:41-46 | BIND throws exactly when bsp is 4096. Otherwise it stores the journal point at `bindPoints[bsp]` and increments bsp by one, whether or not unification succeeds. It jumps to op3 exactly when unification fails, appends the unifier's entries to the journal, and changes nothing else |
| LogicVM.BindUndoPops | src/main/java/org/instructionexecutor/LogicInstructionExecutor.java:47-49 | BIND-UNDO throws exactly when bsp is 0. Otherwise it decrements bsp and truncates the journal to the popped point |
| LogicVM.BindThenUndo | src/main/java/org/instructionexecutor/LogicInstructionExecutor.java:41-49 | BIND followed by BIND-UNDO restores bsp and the journal, whatever the unifier recorded |
| LogicVM.CutBeginAppends | src/main/java/org/instructionexecutor/LogicInstructionExecutor.java:50-53 | CUT-BEGIN writes the old cut-point count into register op1 and appends exactly one cut point (journal point, csp). Earlier cut points are unchanged |
| LogicVM.CutEndLowers | src/main/java/org/instructionexecutor/LogicInstructionExecutor.java:54-58 | CUT-END sets csp to min(csp, recorded pointer) and nulls exactly the slots in [recorded, old csp). It is the identity when csp is already at or below the recorded pointer, and never touches the journal or the cut points |
| LogicVM.CutFailRestores | src/main/java/org/instructionexecutor/LogicInstructionExecutor.java:59-65 | CUT-FAIL truncates the journal to the cut point's journal pointer and truncates the cut-point list to the cut index. It sets ip to op2 and leaves bsp, csp and the call stack unchanged |
| LogicVM.CutOpcodesFault | src/main/java/org/instructionexecutor/LogicInstructionExecutor.java:54-61 | CUT-END and CUT-FAIL throw exactly when register op1 is not an integer or names no cut point (the cast or `get` fails), and then nothing has changed |
| LogicVM.ProveSysJumps | src/main/java/org/instructionexecutor/LogicInstructionExecutor.java:66-69 | PROVE-SYS never throws. ip becomes op2 when the system predicate fails and stays put when it succeeds; every other part of the state is unchanged |
| LogicVM.OnlyCutEndMovesCsp | src/main/java/org/instructionexecutor/LogicInstructionExecutor.java:74 | Every logic opcode other than CUT-END returns csp unchanged |
| LogicVM.CutBeginThenFail | src/main/java/org/instructionexecutor/LogicInstructionExecutor.java:50-65 | CUT-FAIL on the cut point that CUT-BEGIN just made restores the journal and the cut-point list to their state before CUT-BEGIN |
| LogicVM.NullSlots | src/main/java/org/instructionexecutor/LogicInstructionExecutor.java:56-57 | The call stack after CUT-END's loop: same length, null exactly in the given range, otherwise unchanged |
| Utils.Truncated | src/main/java/org/util/Util.java:169-173 | The truncated list has length min(size, n) (empty for n < 0), keeps the prefix unchanged, and is the whole list when n >= size |
| Utils.Truncate | src/main/java/org/util/Util.java:169-173 | Removing the last element while the size exceeds n leaves exactly `Truncated(old, n)` |
| Utils.Unique | src/main/java/org/util/Util.java:159-167 | Succeeds exactly on a singleton list and returns its element. An empty list fails with "Result is empty"; a longer list fails with "Result not unique" |
| Utils.IsBlank | src/main/java/org/util/Util.java:51-57 | True exactly for null or a string whose characters are all whitespace in the sense of Java 8's `Character.isWhitespace` (so "" is blank) |
| Utils.Equals | src/main/java/org/util/Util.java:251-256 | Two nulls are equal, exactly one null is unequal, and two non-nulls defer to the element equality |
| Utils.EqualsSymmetric | src/main/java/org/util/Util.java:251-256 | Null-safe equality is symmetric whenever the element equality is |
| Utils.Compare | src/main/java/org/util/Util.java:258-263 | Null orders before any value (-1 or 1), two nulls compare 0, and two values defer to `compareTo` |
| Utils.CompareAntisymmetric | src/main/java/org/util/Util.java:258-263 | The sign of a null-safe comparison flips when the arguments swap, whenever it does for `compareTo` |
| Utils.HashCode | src/main/java/org/util/Util.java:265-267 | null hashes to 0, and any other value to its own hash |
| Utils.HashCodeRespectsEquals | src/main/java/org/util/Util.java:251-267 | Null-safely equal values have equal null-safe hashes, given the element hash respects element equality |
| Utils.Map | src/main/java/org/util/Util.java:192-197 | The result has the input's size, and its i-th element is the transformer applied to the i-th input |
| Utils.Substr | src/main/java/org/util/Util.java:299-306 | The loop's result is `SubstrSpec`: start and end are shifted by the length into range, and the call never returns on an empty string that needs shifting |
| Utils.SubstrLast | src/main/java/org/util/Util.java:299-306 | `substr(s, -k, 0)` is the last k characters whenever 0 < k <= length |
| Utils.SubstrEmptyLoops | src/main/java/org/util/Util.java:300-303 | On the empty string, a negative start or an end <= 0 never terminates |
| Utils.PairEquals | src/main/java/org/util/Util.java:113-119 | A null or non-Pair argument is never equal. A pair equals another exactly when each component is null in both or present in both and equal by its element equality |
| Utils.PairEqualsReflexive | src/main/java/org/util/Util.java:113-119 | A pair equals itself whenever its components' equalities are reflexive |
| Utils.PairEqualsSymmetric | src/main/java/org/util/Util.java:113-119 | Pair equality is symmetric whenever its components' equalities are |
| Utils.PairHashCode | src/main/java/org/util/Util.java:121-125 | A pair's hash is the XOR of its two component hashes when both are present; a null component contributes 0, so two nulls hash to 0 |
| Utils.PairHashRespectsEquals | src/main/java/org/util/Util.java:113-125 | Equal pairs hash equally |
| JavaInts.Wrap32 | src/main/java/org/instructioncode/InstructionCodeExecutor.java:117 | The result is a Java int congruent to the exact value mod 2^32, and equals it when it is in range |
| JavaInts.ToShort | src/main/java/org/instructioncode/InstructionCodeExecutor.java:104-106 | The `(short)` cast: a short congruent to the value mod 2^16, equal to it when in range |
| Terms.FinalNode | src/main/java/org/suite/doer/Formatter.java:49 | Dereferencing never yields a bound reference, is no larger than the term, and is the identity on anything but a reference |
| Terms.Decompose | src/main/java/org/instructioncode/InstructionCodeExecutor.java:73-85 | Yields a tree with the given operator and smaller children, and yields nothing exactly when the dereferenced node is no such tree |
| Terms.FindOperator | src/main/java/org/instructioncode/InstructionCodeExecutor.java:96 | Finds an operator of the table bearing the given name, and yields nothing only when no operator of the table has that name |
| InstructionCode.Code | src/main/java/org/instructioncode/InstructionCodeExecutor.java:17-32 | Every opcode's code lies in 0..15 |
| InstructionCode.Lookup | src/main/java/org/instructioncode/InstructionCodeExecutor.java:93 | A found opcode is in the table and bears the name; none is found only when no opcode of the table bears it |
| InstructionCode.TableByCode | src/main/java/org/instructioncode/InstructionCodeExecutor.java:34-53 | The name table lists each opcode at the index of its code |
| InstructionCode.CodesAndNamesDistinct | src/main/java/org/instructioncode/InstructionCodeExecutor.java:17-53 | Distinct opcodes have distinct codes and distinct names |
| InstructionCode.CodeRoundTrip | src/main/java/org/instructioncode/InstructionCodeExecutor.java:17-32 | code to opcode inverts opcode to code, and is defined exactly on 0..15 |
| InstructionCode.NameRoundTrip | src/main/java/org/instructioncode/InstructionCodeExecutor.java:34-53 | Looking up an opcode's name gives that opcode back |
| InstructionCode.NamedRoundTrip | src/main/java/org/instructioncode/InstructionCodeExecutor.java:34-53 | A name that is found maps back to itself, and a name is unknown exactly when no opcode bears it |
| InstructionCode.Parts | src/main/java/org/instructioncode/InstructionCodeExecutor.java:82-90 | A clause has at least one part |
| InstructionCode.PartsAreClausesAndEnd | src/main/java/org/instructioncode/InstructionCodeExecutor.java:85-90 | The parts are every left child along the separator spine, then the final node, so there is one more part than there are separators |
| InstructionCode.PartsOfTree | src/main/java/org/instructioncode/InstructionCodeExecutor.java:85-88 | A separator tree contributes its left child ahead of the parts of its right child |
| InstructionCode.PartsOfLeaf | src/main/java/org/instructioncode/InstructionCodeExecutor.java:90 | An atom, integer or string is a single part |
| InstructionCode.SplitParts | src/main/java/org/instructioncode/InstructionCodeExecutor.java:82-90 | The loop collects exactly `Parts` |
| InstructionCode.Classify | src/main/java/org/instructioncode/InstructionCodeExecutor.java:92-101 | On success the mnemonic is still part 0 and at least one part remains |
| InstructionCode.ParseAlwaysFails | src/main/java/org/instructioncode/InstructionCodeExecutor.java:92-106 | `parseInstruction` as written never succeeds: once the mnemonic is known, operand 1 is cast from part 0, the mnemonic atom, and fails with ClassCastException |
| InstructionCode.EncodedClauseFails | src/main/java/org/instructioncode/InstructionCodeExecutor.java:103-106 | The counterexample: a well-formed clause `mnemonic sep op1 sep op2 sep op3` fails as written and decodes to its instruction when the operands are read from parts 1..3 |
| InstructionCode.AsWrittenProgramFails | src/main/java/org/instructioncode/InstructionCodeExecutor.java:69-106 | With `parseInstruction` as written, the constructor throws exactly when the program has at least one clause |
| InstructionCode.ParseInstruction | src/main/java/org/instructioncode/InstructionCodeExecutor.java:81-107 | The loop-based decoding, reading the operands from part `first` on, is `ParseWith`. With first = 0, as written, it is `ParseAsWritten` and always fails; with first = 1, the correction in Findings, it is `ParseFixed` |
| InstructionCode.ReadOperands | src/main/java/org/instructioncode/InstructionCodeExecutor.java:103-106 | Operand k is the `(short)` of part first + k as an Int when present, else 0, and a non-Int part is a ClassCastException. As written (first = 0) operand 1 is read from the mnemonic atom and always throws |
| InstructionCode.ParseEncode | src/main/java/org/instructioncode/InstructionCodeExecutor.java:81-107 | Decoding (corrected) inverts encoding for every non-EVALUATE instruction with short operands |
| InstructionCode.EvaluateRewrite | src/main/java/org/instructioncode/InstructionCodeExecutor.java:95-101 | An EVALUATE clause becomes EVAL-ADD exactly when part 3 names `+`, and in both cases part 3 is removed before the operands are read |
| InstructionCode.EvaluateMalformed | src/main/java/org/instructioncode/InstructionCodeExecutor.java:95-96 | An EVALUATE clause fails with IndexOutOfBounds when it has at most three parts, and with ClassCast when part 3 is not an atom |
| InstructionCode.UnknownMnemonicFails | src/main/java/org/instructioncode/InstructionCodeExecutor.java:93-95 | An unknown mnemonic gives a null code, which fails at the EVALUATE comparison with NullPointerException |
| InstructionCode.DecodeSpineClauses | src/main/java/org/instructioncode/InstructionCodeExecutor.java:69-79 | Decoding a program fails exactly when some clause fails. On success there is one instruction per clause, in order; the node ending the spine is not decoded |
| InstructionCode.InstructionCodeExecutor.Create | src/main/java/org/instructioncode/InstructionCodeExecutor.java:69-79 | The constructor succeeds exactly when `Decode` with the same operand indexing does, and then holds exactly the decoded instructions; otherwise it throws the same fault. As written (first = 0) it throws exactly when the program has a clause; `Decode` with first = 1 is the correction in Findings |
| InstructionCode.InstructionCodeExecutor.Execute | src/main/java/org/instructioncode/InstructionCodeExecutor.java:109-122 | The final registers and ip are `Run` of the instructions |
| InstructionCode.EvalAddEffect | src/main/java/org/instructioncode/InstructionCodeExecutor.java:116-118 | EVAL-ADD fails exactly when an operand is not a register index below 256. Otherwise it sets register op1 to the 32-bit wrapped sum of registers op2 and op3 and leaves every other register and ip alone |
| InstructionCode.OtherEffects | src/main/java/org/instructioncode/InstructionCodeExecutor.java:119-121 | JUMP sets ip to op1; any other opcode changes nothing |
| InstructionCode.RunFirstOnly | src/main/java/org/instructioncode/InstructionCodeExecutor.java:110-113 | Only instruction 0 matters, and on success every register is still zero, since the registers start at zero and EVAL-ADD can only add two zeros |
| Formatting.Double | src/main/java/org/suite/doer/Formatter.java:112-113 | Doubling a character lengthens the string by its number of occurrences |
| Formatting.Quote | src/main/java/org/suite/doer/Formatter.java:111-115 | The quoted string starts and ends with the quote character and is at least two longer |
| Formatting.UndoubleDouble | src/main/java/org/suite/doer/Formatter.java:112-113 | Undoubling inverts doubling |
| Formatting.QuoteRoundTrip | src/main/java/org/suite/doer/Formatter.java:111-115 | Unquoting inverts `quote`: quote doubling, then `%` doubling, inside the quotes |
| Formatting.CountDouble | src/main/java/org/suite/doer/Formatter.java:112-113 | Doubling c doubles the number of c and keeps the count of every other character |
| Formatting.QuotedAtomPercent | src/main/java/org/suite/doer/Formatter.java:104-105 | A quoted atom holds four `%` for each `%` of the name, and unquotes to the name with `%` doubled once |
| Formatting.ParseNatToString | src/main/java/org/suite/doer/Formatter.java:52 | The decimal text of a natural number parses back to it |
| Formatting.ParseIntToString | src/main/java/org/suite/doer/Formatter.java:52 | The decimal text of an integer, with its sign, parses back to it |
| Formatting.ParenthesesIff | src/main/java/org/suite/doer/Formatter.java:64-86 | A tree is wrapped in parentheses exactly when its precedence is at most the parent's; the inside is the same rendering at precedence minus one |
| Formatting.ChildWrapping | src/main/java/org/suite/doer/Formatter.java:67-71 | A child of strictly higher precedence is never parenthesised. A child of equal precedence is parenthesised exactly on the side the associativity does not favour, and on both sides for a non-associative operator |
| Formatting.InfixEndsWithSpace | src/main/java/org/suite/doer/Formatter.java:78-81 | The operator name is emitted followed by a space unless it already ends with one |
| Formatting.DumpOfPlain | src/main/java/org/suite/doer/Formatter.java:53-60 | On a term whose atoms need no quoting and which holds no strings, dump and display agree |
| Formatting.RendersFinalNode | src/main/java/org/suite/doer/Formatter.java:49 | Formatting a term is formatting its dereferenced value |
| Formatting.Formatter.Format | src/main/java/org/suite/doer/Formatter.java:29-33 | The result is the rendering at parent precedence 0 |
| Formatting.Formatter.FormatInto | src/main/java/org/suite/doer/Formatter.java:47-92 | The buffer is extended by exactly the rendering of the node at the given precedence |
| Formatting.Formatter.FormatTree | src/main/java/org/suite/doer/Formatter.java:61-86 | For a tree, the buffer is extended by exactly its rendering, parentheses included |
| Formatting.Formatter.FormatUnwrapped | src/main/java/org/suite/doer/Formatter.java:67-83 | For a tree, the buffer is extended by the left child, the operator, and the right child at the associativity-adjusted precedences |
| Formatting.Formatter.QuoteAtomIfRequired | src/main/java/org/suite/doer/Formatter.java:94-109 | `QuotedAtom`: the empty name becomes "()"; a name containing `'` or any operator name is `%`-doubled and quoted with `'`; any other name is unchanged |
| Formatting.Display | src/main/java/org/suite/doer/Formatter.java:21-23 | The display rendering at precedence 0 with dumping off |
| Formatting.Dump | src/main/java/org/suite/doer/Formatter.java:25-27 | The dump rendering at precedence 0 with dumping on |
| Weiqi.OpponentInvolution | src/main/java/org/weiqi/Weiqi.java:34-43 | opponent is an involution that swaps BLACK and WHITE and fixes exactly EMPTY |
| Weiqi.DisplayInjective | src/main/java/org/weiqi/Weiqi.java:45-54 | Each occupation displays as one character, and distinct occupations display differently |
| Weiqi.PlayersAreTheNonEmpty | src/main/java/org/weiqi/Weiqi.java:58 | The players are the two non-EMPTY occupations, BLACK then WHITE |
| Weiqi.Pow2Monotone | src/main/java/org/weiqi/Weiqi.java:24-26 | Powers of two grow with the exponent |
| Weiqi.Weiqi.Initialize | src/main/java/org/weiqi/Weiqi.java:16-18 | After `initialize`, size is 19, area 361 and shift 5 |
| Weiqi.Weiqi.AdjustSize | src/main/java/org/weiqi/Weiqi.java:20-29 | size becomes s and area the 32-bit product s*s. The loop ends exactly when s <= 2^30, and then shift is the least value >= 1 with 2^shift >= s |
| Weiqi.Neighbours | src/main/java/org/weiqi/Board.java:69-70 | Every coordinate has four neighbours |
| Weiqi.AdjacentSymmetric | src/main/java/org/weiqi/Board.java:69-70 | Adjacency is symmetric and irreflexive |
| Weiqi.Position | src/main/java/org/weiqi/Weiqi.java:104-110 | A point on the board has a position in [0, size << shift) |
| Weiqi.PositionInjective | src/main/java/org/weiqi/Weiqi.java:104-110 | Distinct points on the board have distinct positions |
| Weiqi.Array.constructor | src/main/java/org/weiqi/Weiqi.java:66-69 | A new array has `size << shift` slots, all null |
| Weiqi.Array.Copy | src/main/java/org/weiqi/Weiqi.java:71-73 | The copy has fresh storage with the same contents |
| Weiqi.Array.Set | src/main/java/org/weiqi/Weiqi.java:104-110 | After `set(c, t)`, `get(c)` is t and every other point reads as before |
| Weiqi.Array.Equals | src/main/java/org/weiqi/Weiqi.java:95-102 | Two arrays are equal exactly when their slots agree one by one |
| Weiqi.CopyIsIndependent | src/main/java/org/weiqi/Weiqi.java:71-106 | Writing to a copy leaves the original unchanged |
| BoardRules.AtPut | src/main/java/org/weiqi/Weiqi.java:104-110 | Setting a point changes what that point holds and nothing else |
| BoardRules.GroupColour | src/main/java/org/weiqi/Board.java:83-93 | A point belongs to its own group, and every member of the group is on the board with the point's colour |
| BoardRules.ClosedHoldsGroup | src/main/java/org/weiqi/Board.java:89-92 | A set holding c and closed under same-coloured neighbours contains c's whole group |
| BoardRules.BreathesEmpty | src/main/java/org/weiqi/Board.java:61-81 | `hasBreath` for player EMPTY is always false |
| BoardRules.BreathesIffLibertyReachable | src/main/java/org/weiqi/Board.java:61-81 | For a player other than EMPTY, the marked search finds a liberty exactly when an EMPTY point can be reached from c through the player's stones |
| BoardRules.BreathesIffGroupHasLiberty | src/main/java/org/weiqi/Board.java:61-81 | A stone of a player other than EMPTY breathes exactly when some stone of its group is next to an EMPTY point |
| BoardRules.AtCleared | src/main/java/org/weiqi/Board.java:55-56 | Clearing a set of points empties exactly those points |
| BoardRules.ClearedAdd | src/main/java/org/weiqi/Board.java:55-56 | Clearing one more point in the loop extends the cleared set by that point, in any order |
| BoardRules.KillIfDeadEffect | src/main/java/org/weiqi/Board.java:51-59 | A stone is killed exactly when its group has no liberty. Killing empties exactly the stones of its group and changes nothing else |
| BoardRules.KillIfDeadOnEmpty | src/main/java/org/weiqi/Board.java:51-59 | On an EMPTY point `killIfDead` reports a kill but the board keeps its contents |
| BoardRules.CapturesKeep | src/main/java/org/weiqi/Board.java:32-34 | Capturing around c never removes the stone just placed at c |
| BoardRules.GroupSame | src/main/java/org/weiqi/Board.java:83-93 | Every stone of a group has that same group, so two groups are equal or disjoint |
| BoardRules.GroupAfterClearing | src/main/java/org/weiqi/Board.java:51-56 | Emptying whole groups of one colour leaves every other group of that colour as it was |
| BoardRules.LibertyAfterClearing | src/main/java/org/weiqi/Board.java:51-56 | Emptying whole groups of one colour gives no other group of that colour a liberty it lacked, nor takes one away |
| BoardRules.CaptureStep | src/main/java/org/weiqi/Board.java:32-34 | One capture step, after earlier groups were captured, empties the group of its neighbour exactly when that group holds the opponent and had no liberty on the board before any capture |
| BoardRules.CapturesOfEmpty | src/main/java/org/weiqi/Board.java:32-34 | When the player is EMPTY, and so is its opponent, the capture steps change nothing |
| BoardRules.CapturesClear | src/main/java/org/weiqi/Board.java:32-34 | The capture steps, in neighbour order, empty exactly the union of the neighbouring opponent groups that have no liberty on the board they start from; the order does not matter |
| BoardRules.CapturesEffect | src/main/java/org/weiqi/Board.java:29-34 | After placing the stone and capturing, a point is EMPTY exactly when it lies in the group of an opponent stone next to c that has no liberty; every other point holds what it held once the stone was placed |
| BoardRules.LiveGroupsSurvive | src/main/java/org/weiqi/Board.java:32-34 | An opponent group next to c that still has a liberty once the stone is placed keeps every one of its stones |
| BoardRules.MoveOutcomes | src/main/java/org/weiqi/Board.java:25-49 | A move throws "occupied" exactly when c is not EMPTY, and then changes nothing. After a normal move c holds the player. For a real player, the move is a suicide exactly when the new stone's group has no liberty once the captures are done. A move by EMPTY itself is always a suicide |
| BoardRules.MovePreservesFilled | src/main/java/org/weiqi/Board.java:25-59 | A board with no null point keeps none after any move, suicide included |
| Boards.Board.constructor | src/main/java/org/weiqi/Board.java:11-14 | Every point of a new board is EMPTY |
| Boards.Board.Copy | src/main/java/org/weiqi/Board.java:16-18 | The copy has fresh storage with the same contents |
| Boards.Board.HasBreath | src/main/java/org/weiqi/Board.java:61-81 | The board is exactly as before, null marks restored. The answer is `Breathes`: false off the board, "is EMPTY" on a point not holding the player, otherwise whether some neighbour breathes with this point marked |
| Boards.Board.FindGroupFrom | src/main/java/org/weiqi/Board.java:89-93 | Only adds to the accumulator. It adds c when c is on the board with the colour, every added point is reachable from c in that colour, and every added point has all its same-coloured neighbours in the result |
| Boards.Board.FindGroup | src/main/java/org/weiqi/Board.java:83-87 | The result is exactly the group of c: the points of c's colour connected to c |
| Boards.Board.KillIfDead | src/main/java/org/weiqi/Board.java:51-59 | Returns whether hasBreath found no liberty, and leaves the board as `Killed`: c's group emptied when dead, untouched otherwise |
| Boards.Board.Move | src/main/java/org/weiqi/Board.java:25-49 | The outcome and the new board are `MoveSpec`: place, capture dead neighbouring opponent groups in neighbour order, then either keep the stone or, on suicide, empty its group, set c again and kill once more |

## Left out

- `Binder`, `Prover`, `SystemPredicates` and the base
  `InstructionExecutor` are not part of this model. Of `Journal`, only the
  entries, `getPointInTime` and `undoBinds` are modelled, as described
  above; how an entry is undone is not. The bind outcome, the
  entries the unifier records and the system predicate's answer are
  parameters. The default branch of `execute` is reported as a delegation
  to the base class and changes nothing here.
- LogicVM.LogicInstructionExecutor.Execute: register reads for BIND and
  PROVE-SYS pass the register terms to the unifier and the system predicate
  only through those parameters, and a null frame is not modelled. Operand
  registers are required to be in range. The cut index `g(regs[op1])` is
  read as the register's own Int (`g` belongs to the base executor, which is
  not part of this model), so a register bound through a Reference counts as
  not an Int. The `(Node)` casts always
  succeed because registers hold terms.
- Formatting.Formatter.FormatInto: the final fallback branch, which prints
  the class name and hash, is not modelled. Every term of the datatype is
  one of the five handled kinds.
- `TermOp.values()` and `Generalizer.variablePrefix` are parameters. The
  `quote` argument is modelled as one character, which covers both of its
  uses (`"` and `'`).
- `Coordinate` is not part of this model. A coordinate is an (x, y) pair on
  the board when both lie in [0, size). Its neighbours are the four
  orthogonal points in a fixed order, and its array position is
  x * 2^shift + y. `Coordinate.initialize` (called by `adjustSize`) and
  `Coordinate.all` are left out. The board constructor visits the points
  row by row.
- Weiqi.Array.constructor: an array captures the size and shift it is
  created with. The source reads the static fields on every access.
- Weiqi.Position: the 32-bit overflow of `size << shift` and of the
  position arithmetic is not modelled. Positions are exact integers.
- Boards.Board.Move: `move` is required to be called with a point on the
  board (the behaviour of `getArrayPosition` off the board belongs to
  `Coordinate`). The copy `b1`, `UserInterface.display` and the
  `System.out` calls are output only and are left out. The two exceptions
  are the outcomes Occupied and Suicide, without their messages.
- Boards.Board.KillIfDead: requires the point to hold an occupation. The
  source's only callers pass points that do; `hasBreath` with a null
  player is not modelled.
- Boards.Board.KillIfDead: the group is emptied in an unspecified order,
  like iterating a `HashSet`; the result does not depend on the order.
- `Board.move1` and `killIfDead1` depend on `GroupAnalysis`, which is not
  part of this model.
- InstructionCode.InstructionCodeExecutor.Execute: returns the final
  registers and ip so they can be stated; the source discards them.
- Utils.IsBlank: whitespace is `Character.isWhitespace` as of Java 8
  (Unicode 6.2), the platform the sources target; later Java releases no
  longer count U+180E MONGOLIAN VOWEL SEPARATOR.
- Utils.Substr: a call that never returns is modelled as the result
  `LoopsForever`.
- Utils.Substr: strings are sequences of Unicode scalar values, while Java's
  `length()` and `substring` count UTF-16 code units. On text outside the
  Basic Multilingual Plane the indices differ from Java's: for example Java's
  `substr("\uD83D\uDE00", -1, 0)` is the lone low surrogate, which the model
  cannot express. The same holds for `isBlank` and the formatter's quoting,
  whose results agree with Java's on every string the model can express.
- Util.java's reflection, sleeping, threads, serialisation-based copying,
  `dump`, `closeQuietly` and `copyArray` are not part of this model.

## Findings

| source | as written | input that shows it | evidently intended | confidence | as-written member | corrected member |
|---|---|---|---|---|---|---|
| src/main/java/org/instructioncode/InstructionCodeExecutor.java:103-106 | Operands 1..3 are read from parts 0..2, and part 0 is the mnemonic atom, so the `(Int)` cast always throws and no clause ever decodes | the clause `JUMP sep 3 sep 0 sep 0` (any encoded non-EVALUATE instruction) | read operands from parts 1..3 | not executed | InstructionCode.EncodedClauseFails | InstructionCode.ParseEncode |
