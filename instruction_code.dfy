/**
 * The instruction-code executor: decodes a separator-joined list of clauses
 * into instructions (mnemonic and up to three short operands) and runs one
 * step over a bank of 256 int registers.
 *
 * TermOp is not part of this model: the separator operator, the operator
 * table that TermOp.find searches and its PLUS operator are given as a Syntax.
 */
module InstructionCode {
  import opened Wrappers
  import opened Terms
  import opened JavaInts

  /** The sixteen opcodes, in the order of their codes. */
  datatype Opcode =
    | ASSIGNBOOL | ASSIGNFUNC | ASSIGNFRAMEREG | ASSIGNINT | ASSIGNSTR | ASSIGNLABEL
    | CALL | EVALUATE | EVALADD | IFFALSE | IFNOTEQUALS | JUMP | LABEL | PUSH | POP | RETURN
  {
    /** The short code of the opcode. */
    function Code(): (c: int)
      ensures 0 <= c < 16
    {
      match this
      case ASSIGNBOOL => 0
      case ASSIGNFUNC => 1
      case ASSIGNFRAMEREG => 2
      case ASSIGNINT => 3
      case ASSIGNSTR => 4
      case ASSIGNLABEL => 5
      case CALL => 6
      case EVALUATE => 7
      case EVALADD => 8
      case IFFALSE => 9
      case IFNOTEQUALS => 10
      case JUMP => 11
      case LABEL => 12
      case PUSH => 13
      case POP => 14
      case RETURN => 15
    }

    /** The mnemonic the name table pairs with the code. */
    function Name(): string
    {
      match this
      case ASSIGNBOOL => "ASSIGN-BOOL"
      case ASSIGNFUNC => "ASSIGN-FUNC"
      case ASSIGNFRAMEREG => "ASSIGN-FRAME-REG"
      case ASSIGNINT => "ASSIGN-INT"
      case ASSIGNSTR => "ASSIGN-STR"
      case ASSIGNLABEL => "ASSIGN-LABEL"
      case CALL => "CALL"
      case EVALUATE => "EVALUATE"
      case EVALADD => "EVAL-ADD"
      case IFFALSE => "IF-FALSE"
      case IFNOTEQUALS => "IF-NOT-EQ"
      case JUMP => "JUMP"
      case LABEL => "LABEL"
      case PUSH => "PUSH"
      case POP => "POP"
      case RETURN => "RETURN"
    }
  }

  /** The name table, listed by code. */
  const NameTable: seq<Opcode> := [
    ASSIGNBOOL, ASSIGNFUNC, ASSIGNFRAMEREG, ASSIGNINT, ASSIGNSTR, ASSIGNLABEL,
    CALL, EVALUATE, EVALADD, IFFALSE, IFNOTEQUALS, JUMP, LABEL, PUSH, POP, RETURN]

  /** Searches the table for the opcode whose mnemonic is name. */
  function Lookup(table: seq<Opcode>, name: string): (r: Option<Opcode>)
    ensures r.Some? ==> r.value in table && r.value.Name() == name
    ensures r.None? ==> forall k :: 0 <= k < |table| ==> table[k].Name() != name
  {
    if table == [] then None
    else if table[0].Name() == name then Some(table[0])
    else Lookup(table[1..], name)
  }

  /** instructionNames.inverse().get(name): null (None) for an unknown mnemonic. */
  function OpcodeNamed(name: string): Option<Opcode>
  {
    Lookup(NameTable, name)
  }

  /** instructionNames.get(code). */
  function OpcodeOfCode(code: int): (r: Option<Opcode>)
    ensures r.Some? ==> r.value.Code() == code
  {
    if 0 <= code < |NameTable| && NameTable[code].Code() == code then Some(NameTable[code]) else None
  }

  /** The table lists every opcode once, at the index of its code. */
  lemma TableByCode(o: Opcode)
    ensures 0 <= o.Code() < |NameTable| && NameTable[o.Code()] == o
  {
  }

  /** Distinct opcodes have distinct codes and distinct mnemonics. */
  lemma CodesAndNamesDistinct(o1: Opcode, o2: Opcode)
    requires o1 != o2
    ensures o1.Code() != o2.Code()
    ensures o1.Name() != o2.Name()
  {
    if o1.Name() == o2.Name() {
      assert o1.Name()[..] == o2.Name()[..];
      assert |o1.Name()| == |o2.Name()|;
    }
  }

  /** Code to opcode and back, and the name table's inverse on every mnemonic. */
  lemma CodeRoundTrip(o: Opcode, code: int)
    ensures OpcodeOfCode(o.Code()) == Some(o)
    ensures OpcodeOfCode(code).Some? <==> 0 <= code < 16
  {
    TableByCode(o);
  }

  /** Looking up the mnemonic of an opcode finds that opcode. */
  lemma NameRoundTrip(o: Opcode)
    ensures OpcodeNamed(o.Name()) == Some(o)
  {
    var r := OpcodeNamed(o.Name());
    TableByCode(o);
    assert r.Some?;
    if r.value != o {
      CodesAndNamesDistinct(r.value, o);
    }
  }

  /** A mnemonic the table knows is the name of the opcode it maps to. */
  lemma NamedRoundTrip(name: string)
    ensures OpcodeNamed(name).Some? ==> OpcodeNamed(name).value.Name() == name
    ensures OpcodeNamed(name).None? <==> forall o: Opcode :: o.Name() != name
  {
    if OpcodeNamed(name).None? {
      forall o: Opcode ensures o.Name() != name {
        TableByCode(o);
      }
    }
  }

  /** The separator, the operator table and the PLUS operator of TermOp. */
  datatype Syntax = Syntax(sep: Operator, operators: seq<Operator>, plus: Operator)

  /** An instruction: opcode and three short operands. */
  datatype Instruction = Instruction(insn: Opcode, op1: int, op2: int, op3: int)

  /** The Java exceptions decoding and execution can raise. */
  datatype Fault = ClassCast | NullPointer | IndexOutOfBounds

  // The separator spine.

  /** The left children along the separator spine of node. */
  function Clauses(node: Term, sep: Operator): seq<Term>
    decreases Size(node)
  {
    match Decompose(node, sep)
    case Some(tree) => [tree.left] + Clauses(tree.right, sep)
    case None => []
  }

  /** The node that ends the separator spine. */
  function SpineEnd(node: Term, sep: Operator): (r: Term)
    ensures Decompose(r, sep).None?
    decreases Size(node)
  {
    match Decompose(node, sep)
    case Some(tree) => SpineEnd(tree.right, sep)
    case None => node
  }

  /** The parts of a clause: every left child along the spine and then its end. */
  function Parts(node: Term, sep: Operator): (rs: seq<Term>)
    ensures |rs| >= 1
    decreases Size(node)
  {
    match Decompose(node, sep)
    case Some(tree) => [tree.left] + Parts(tree.right, sep)
    case None => [node]
  }

  /** A clause splits into its separated parts and the final node, so it has
    * one more part than separators. */
  lemma {:induction false} PartsAreClausesAndEnd(node: Term, sep: Operator)
    ensures Parts(node, sep) == Clauses(node, sep) + [SpineEnd(node, sep)]
    ensures |Parts(node, sep)| == |Clauses(node, sep)| + 1
    decreases Size(node)
  {
    match Decompose(node, sep)
    case Some(tree) => PartsAreClausesAndEnd(tree.right, sep);
    case None =>
  }

  /** A separator tree contributes its left child and then the parts of its right child. */
  lemma PartsOfTree(l: Term, r: Term, sep: Operator)
    ensures Parts(Tree(sep, l, r), sep) == [l] + Parts(r, sep)
  {
  }

  /** An atom, integer or string is a single part. */
  lemma PartsOfLeaf(t: Term, sep: Operator)
    requires t.Atom? || t.Int? || t.Str?
    ensures Parts(t, sep) == [t]
  {
  }

  /** The first loop of parseInstruction: collects the parts of a clause. */
  method SplitParts(node: Term, sep: Operator) returns (rs: seq<Term>)
    ensures rs == Parts(node, sep)
  {
    rs := [];
    var n := node;
    while Decompose(n, sep).Some?
      invariant rs + Parts(n, sep) == Parts(node, sep)
      decreases Size(n)
    {
      var tree := Decompose(n, sep).value;
      rs := rs + [tree.left];
      n := tree.right;
    }
    rs := rs + [n];
  }

  // Decoding one clause.

  /** The mnemonic lookup and the EVALUATE rewrite: the opcode and the parts
    * left once the operator part 3 of an EVALUATE clause has been removed. */
  function Classify(rs: seq<Term>, syn: Syntax): (r: Result<(Opcode, seq<Term>), Fault>)
    requires |rs| >= 1
    ensures r.Success? ==> |r.value.1| >= 1 && r.value.1[0] == rs[0]
  {
    if !rs[0].Atom? then Failure(ClassCast)
    else match OpcodeNamed(rs[0].name)
      case None => Failure(NullPointer)
      case Some(op) =>
        if op != EVALUATE then Success((op, rs))
        else if |rs| <= 3 then Failure(IndexOutOfBounds)
        else if !rs[3].Atom? then Failure(ClassCast)
        else
          var insn := if FindOperator(syn.operators, rs[3].name) == Some(syn.plus) then EVALADD else EVALUATE;
          Success((insn, rs[..3] + rs[4..]))
  }

  /** (short) ((Int) ps[k]).getNumber() when part k exists, else 0. */
  function Operand(ps: seq<Term>, k: nat): Result<int, Fault>
  {
    if |ps| > k then
      if ps[k].Int? then Success(ToShort(ps[k].number)) else Failure(ClassCast)
    else Success(0)
  }

  /** Builds the instruction, taking its three operands from parts first, first + 1, first + 2. */
  function Assemble(op: Opcode, ps: seq<Term>, first: nat): Result<Instruction, Fault>
  {
    match Operand(ps, first)
    case Failure(f) => Failure(f)
    case Success(o1) =>
      match Operand(ps, first + 1)
      case Failure(f) => Failure(f)
      case Success(o2) =>
        match Operand(ps, first + 2)
        case Failure(f) => Failure(f)
        case Success(o3) => Success(Instruction(op, o1, o2, o3))
  }

  /** parseInstruction with the operands read from parts first, first + 1
    * and first + 2 of what is left after the EVALUATE rewrite. */
  function ParseWith(node: Term, syn: Syntax, first: nat): Result<Instruction, Fault>
  {
    var rs := Parts(node, syn.sep);
    match Classify(rs, syn)
    case Failure(f) => Failure(f)
    case Success((op, ps)) => Assemble(op, ps, first)
  }

  /** parseInstruction exactly as written: the operands are read from parts 0, 1 and 2. */
  function ParseAsWritten(node: Term, syn: Syntax): Result<Instruction, Fault>
  {
    ParseWith(node, syn, 0)
  }

  /** Part 0 is always the mnemonic Atom, so as written every clause fails to
    * decode: with a ClassCastException once the mnemonic is known. */
  lemma ParseAlwaysFails(node: Term, syn: Syntax)
    ensures ParseAsWritten(node, syn).Failure?
    ensures Classify(Parts(node, syn.sep), syn).Success? ==> ParseAsWritten(node, syn) == Failure(ClassCast)
  {
  }

  /** parseInstruction with the operands read from the parts after the mnemonic. */
  function ParseFixed(node: Term, syn: Syntax): Result<Instruction, Fault>
  {
    ParseWith(node, syn, 1)
  }

  /** parseInstruction, reading the operands from part first on: 0 as
    * written, 1 as corrected. */
  method ParseInstruction(node: Term, syn: Syntax, first: nat) returns (r: Result<Instruction, Fault>)
    ensures r == ParseWith(node, syn, first)
    ensures first == 0 ==> r == ParseAsWritten(node, syn) && r.Failure?
    ensures first == 1 ==> r == ParseFixed(node, syn)
  {
    var rs := SplitParts(node, syn.sep);
    if !rs[0].Atom? {
      return Failure(ClassCast);
    }
    var instruction := OpcodeNamed(rs[0].name);
    if instruction.None? {
      return Failure(NullPointer);
    }
    var op := instruction.value;
    if op == EVALUATE {
      if |rs| <= 3 {
        return Failure(IndexOutOfBounds);
      } else if !rs[3].Atom? {
        return Failure(ClassCast);
      }
      if FindOperator(syn.operators, rs[3].name) == Some(syn.plus) {
        op := EVALADD;
      }
      rs := rs[..3] + rs[4..];
    }
    r := ReadOperands(op, rs, first);
    if first == 0 {
      ParseAlwaysFails(node, syn);
    }
  }

  /** The operand reads of parseInstruction, from parts first, first + 1 and
    * first + 2: as written first is 0, so op1 is read from the mnemonic. */
  method ReadOperands(op: Opcode, rs: seq<Term>, first: nat) returns (r: Result<Instruction, Fault>)
    ensures r == Assemble(op, rs, first)
    ensures first == 0 && |rs| >= 1 && rs[0].Atom? ==> r == Failure(ClassCast)
  {
    var operands := [0, 0, 0];
    for k := 0 to 3
      invariant |operands| == 3
      invariant forall j :: 0 <= j < k ==> Operand(rs, first + j) == Success(operands[j])
      invariant forall j :: k <= j < 3 ==> operands[j] == 0
    {
      if |rs| > first + k {
        if !rs[first + k].Int? {
          return Failure(ClassCast);
        }
        operands := operands[k := ToShort(rs[first + k].number)];
      }
    }
    r := Success(Instruction(op, operands[0], operands[1], operands[2]));
  }

  /** The clause "mnemonic op1 op2 op3" of an instruction. */
  function Encode(i: Instruction, sep: Operator): Term
  {
    Tree(sep, Atom(i.insn.Name()), Tree(sep, Int(i.op1), Tree(sep, Int(i.op2), Int(i.op3))))
  }

  /** The clause of an instruction has four parts: the mnemonic and the three operands. */
  lemma PartsOfEncode(i: Instruction, sep: Operator)
    ensures Parts(Encode(i, sep), sep) == [Atom(i.insn.Name()), Int(i.op1), Int(i.op2), Int(i.op3)]
  {
    PartsOfTree(Int(i.op2), Int(i.op3), sep);
    PartsOfLeaf(Int(i.op3), sep);
    PartsOfTree(Int(i.op1), Tree(sep, Int(i.op2), Int(i.op3)), sep);
    PartsOfTree(Atom(i.insn.Name()), Tree(sep, Int(i.op1), Tree(sep, Int(i.op2), Int(i.op3))), sep);
  }

  /** Decoding the clause of an instruction gives the instruction back, for
    * every opcode but EVALUATE (whose clause carries an operator part). */
  lemma ParseEncode(i: Instruction, syn: Syntax)
    requires i.insn != EVALUATE && IsShort(i.op1) && IsShort(i.op2) && IsShort(i.op3)
    ensures ParseFixed(Encode(i, syn.sep), syn) == Success(i)
  {
    var rs := [Atom(i.insn.Name()), Int(i.op1), Int(i.op2), Int(i.op3)];
    PartsOfEncode(i, syn.sep);
    NameRoundTrip(i.insn);
    assert Classify(rs, syn) == Success((i.insn, rs));
    AssembleShorts(i, rs[0]);
  }

  /** Short integer parts 1..3 are read back unchanged. */
  lemma AssembleShorts(i: Instruction, mnemonic: Term)
    requires IsShort(i.op1) && IsShort(i.op2) && IsShort(i.op3)
    ensures Assemble(i.insn, [mnemonic, Int(i.op1), Int(i.op2), Int(i.op3)], 1) == Success(i)
  {
    var rs := [mnemonic, Int(i.op1), Int(i.op2), Int(i.op3)];
    assert Operand(rs, 1) == Success(i.op1);
    assert Operand(rs, 2) == Success(i.op2);
    assert Operand(rs, 3) == Success(i.op3);
  }

  /** The clause of any instruction but EVALUATE shows it: decoding as written
    * throws, the corrected decoding gives the instruction back (for instance
    * the clause "JUMP 3 0 0"). */
  lemma EncodedClauseFails(i: Instruction, syn: Syntax)
    requires i.insn != EVALUATE && IsShort(i.op1) && IsShort(i.op2) && IsShort(i.op3)
    ensures ParseAsWritten(Encode(i, syn.sep), syn) == Failure(ClassCast)
    ensures ParseFixed(Encode(i, syn.sep), syn) == Success(i)
  {
    ParseEncode(i, syn);
  }

  /** An EVALUATE clause becomes EVAL-ADD exactly when its part 3 names the
    * PLUS operator; either way part 3 is dropped before the operands are read. */
  lemma EvaluateRewrite(node: Term, syn: Syntax)
    requires var rs := Parts(node, syn.sep);
      |rs| > 3 && rs[0].Atom? && OpcodeNamed(rs[0].name) == Some(EVALUATE) && rs[3].Atom?
    ensures var rs := Parts(node, syn.sep);
      var op := if FindOperator(syn.operators, rs[3].name) == Some(syn.plus) then EVALADD else EVALUATE;
      && ParseFixed(node, syn) == Assemble(op, rs[..3] + rs[4..], 1)
      && ParseAsWritten(node, syn) == Assemble(op, rs[..3] + rs[4..], 0)
  {
  }

  /** An EVALUATE clause missing its operator part throws; so does one whose
    * part 3 is not an atom. */
  lemma EvaluateMalformed(node: Term, syn: Syntax)
    requires var rs := Parts(node, syn.sep);
      rs[0].Atom? && OpcodeNamed(rs[0].name) == Some(EVALUATE)
    ensures var rs := Parts(node, syn.sep);
      && (|rs| <= 3 ==> ParseFixed(node, syn) == Failure(IndexOutOfBounds))
      && (|rs| > 3 && !rs[3].Atom? ==> ParseFixed(node, syn) == Failure(ClassCast))
  {
  }

  /** A clause with an unknown mnemonic fails with a NullPointerException, as
    * written and corrected alike. */
  lemma UnknownMnemonicFails(node: Term, syn: Syntax)
    requires Parts(node, syn.sep)[0].Atom? && OpcodeNamed(Parts(node, syn.sep)[0].name).None?
    ensures ParseAsWritten(node, syn) == Failure(NullPointer)
    ensures ParseFixed(node, syn) == Failure(NullPointer)
  {
  }

  // Decoding a program.

  /** The constructor's loop, for a clause decoder parse: each clause along
    * the spine in order, the first failure aborting the whole. */
  function DecodeSpine(node: Term, sep: Operator, parse: Term -> Result<Instruction, Fault>): Result<seq<Instruction>, Fault>
    decreases Size(node)
  {
    match Decompose(node, sep)
    case None => Success([])
    case Some(tree) =>
      match parse(tree.left)
      case Failure(f) => Failure(f)
      case Success(i) =>
        match DecodeSpine(tree.right, sep, parse)
        case Failure(f) => Failure(f)
        case Success(rest) => Success([i] + rest)
  }

  /** The constructor's decoding, with parseInstruction reading the operands
    * from part first on. */
  function Decode(node: Term, syn: Syntax, first: nat): Result<seq<Instruction>, Fault>
  {
    DecodeSpine(node, syn.sep, t => ParseWith(t, syn, first))
  }

  /** A decoded program holds one instruction per clause along the spine, in
    * order, and decoding succeeds exactly when every clause decodes; the node
    * ending the spine is not decoded. */
  lemma {:induction false} DecodeSpineClauses(node: Term, sep: Operator, parse: Term -> Result<Instruction, Fault>)
    ensures DecodeSpine(node, sep, parse).Failure? <==>
      exists k :: 0 <= k < |Clauses(node, sep)| && parse(Clauses(node, sep)[k]).Failure?
    ensures DecodeSpine(node, sep, parse).Success? ==>
      var ins := DecodeSpine(node, sep, parse).value; var cs := Clauses(node, sep);
      |ins| == |cs| && forall k :: 0 <= k < |cs| ==> Success(ins[k]) == parse(cs[k])
    decreases Size(node)
  {
    match Decompose(node, sep)
    case None =>
    case Some(tree) =>
      DecodeSpineClauses(tree.right, sep, parse);
      var cs := Clauses(node, sep);
      var rest := Clauses(tree.right, sep);
      assert cs == [tree.left] + rest;
      assert forall k :: 1 <= k < |cs| ==> cs[k] == rest[k - 1];
      if parse(tree.left).Failure? {
        assert cs[0] == tree.left && !parse(cs[0]).Success?;
        assert DecodeSpine(node, sep, parse).Failure? <==>
          exists k :: 0 <= k < |Clauses(node, sep)| && parse(Clauses(node, sep)[k]).Failure?;
      } else if DecodeSpine(tree.right, sep, parse).Failure? {
        var k :| 0 <= k < |rest| && parse(rest[k]).Failure?;
        assert cs[k + 1] == rest[k] && !parse(cs[k + 1]).Success?;
        assert DecodeSpine(node, sep, parse).Failure? <==>
          exists k :: 0 <= k < |Clauses(node, sep)| && parse(Clauses(node, sep)[k]).Failure?;
      } else {
        var ins := DecodeSpine(node, sep, parse).value;
        assert ins == [parse(tree.left).value] + DecodeSpine(tree.right, sep, parse).value;
        assert cs[0] == tree.left;
        assert forall k :: 1 <= k < |cs| ==> ins[k] == DecodeSpine(tree.right, sep, parse).value[k - 1];
      }
  }

  /** With parseInstruction as written, the constructor throws for every
    * program with at least one clause; only a bare spine end decodes, to no
    * instructions. */
  lemma AsWrittenProgramFails(node: Term, syn: Syntax)
    ensures Decode(node, syn, 0).Failure? <==> |Clauses(node, syn.sep)| >= 1
    ensures |Clauses(node, syn.sep)| == 0 ==> Decode(node, syn, 0) == Success([])
  {
    var parse := t => ParseWith(t, syn, 0);
    DecodeSpineClauses(node, syn.sep, parse);
    var cs := Clauses(node, syn.sep);
    if |cs| >= 1 {
      ParseAlwaysFails(cs[0], syn);
      assert parse(cs[0]).Failure?;
    } else {
      assert Decompose(node, syn.sep).None?;
    }
  }

  /** One turn of the constructor's loop: the first clause is decoded, and
    * either its failure is the program's or its instruction heads the rest. */
  lemma DecodeStep(n: Term, syn: Syntax, first: nat)
    requires Decompose(n, syn.sep).Some?
    ensures var tree := Decompose(n, syn.sep).value; var i := ParseWith(tree.left, syn, first);
      && (i.Failure? ==> Decode(n, syn, first) == Failure(i.error))
      && (i.Success? ==> Decode(n, syn, first) == Prepend([i.value], Decode(tree.right, syn, first)))
  {
    assert Decode(n, syn, first) == DecodeSpine(n, syn.sep, t => ParseWith(t, syn, first));
  }

  /** Prefixes a decoded list to the decoding of the rest. */
  function Prepend(list: seq<Instruction>, rest: Result<seq<Instruction>, Fault>): Result<seq<Instruction>, Fault>
  {
    match rest
    case Failure(f) => Failure(f)
    case Success(ins) => Success(list + ins)
  }

  /** A machine state: the register bank and the instruction pointer. */
  datatype Machine = Machine(registers: seq<int>, ip: int)

  const RegisterCount: nat := 256

  /** The effect of one instruction on a machine. */
  function StepSpec(m: Machine, inst: Instruction): Result<Machine, Fault>
    requires |m.registers| == RegisterCount
  {
    match inst.insn
    case EVALADD =>
      if 0 <= inst.op1 < RegisterCount && 0 <= inst.op2 < RegisterCount && 0 <= inst.op3 < RegisterCount
      then Success(m.(registers := m.registers[inst.op1 := Wrap32(m.registers[inst.op2] + m.registers[inst.op3])]))
      else Failure(IndexOutOfBounds)
    case JUMP => Success(m.(ip := inst.op1))
    case _ => Success(m)
  }

  /** execute(): the first instruction, applied to zeroed registers with ip 0. */
  function Run(instructions: seq<Instruction>): Result<Machine, Fault>
  {
    if |instructions| == 0 then Failure(IndexOutOfBounds)
    else StepSpec(Machine(seq(RegisterCount, _ => 0), 0), instructions[0])
  }

  /** EVAL-ADD stores the wrapped sum in op1 and changes nothing else; it
    * throws exactly when an operand names no register. */
  lemma EvalAddEffect(m: Machine, inst: Instruction)
    requires |m.registers| == RegisterCount && inst.insn == EVALADD
    ensures StepSpec(m, inst).Failure? <==>
      !(0 <= inst.op1 < RegisterCount && 0 <= inst.op2 < RegisterCount && 0 <= inst.op3 < RegisterCount)
    ensures StepSpec(m, inst).Success? ==>
      var t := StepSpec(m, inst).value;
      && |t.registers| == RegisterCount
      && t.registers[inst.op1] == Wrap32(m.registers[inst.op2] + m.registers[inst.op3])
      && (forall k :: 0 <= k < RegisterCount && k != inst.op1 ==> t.registers[k] == m.registers[k])
      && t.ip == m.ip
  {
  }

  /** JUMP moves ip to op1; every other opcode but EVAL-ADD has no effect. */
  lemma OtherEffects(m: Machine, inst: Instruction)
    requires |m.registers| == RegisterCount && inst.insn != EVALADD
    ensures StepSpec(m, inst).Success?
    ensures StepSpec(m, inst).value == if inst.insn == JUMP then m.(ip := inst.op1) else m
  {
  }

  /** execute looks at the first instruction only, and since the registers
    * start at zero it leaves every register zero. */
  lemma RunFirstOnly(instructions: seq<Instruction>)
    ensures |instructions| > 0 ==> Run(instructions) == Run(instructions[..1])
    ensures Run(instructions).Success? ==>
      forall k :: 0 <= k < |Run(instructions).value.registers| ==> Run(instructions).value.registers[k] == 0
  {
  }

  class InstructionCodeExecutor {
    const instructions: array<Instruction>

    constructor (list: seq<Instruction>)
      ensures instructions[..] == list && fresh(instructions)
    {
      instructions := new Instruction[|list|](k requires 0 <= k < |list| => list[k]);
    }

    /** new InstructionCodeExecutor(node): decodes every clause along the
      * separator spine, throwing what the first failing clause throws. */
    static method Create(node: Term, syn: Syntax, first: nat) returns (r: Result<InstructionCodeExecutor, Fault>)
      ensures r.Success? <==> Decode(node, syn, first).Success?
      ensures r.Success? ==> fresh(r.value.instructions) && r.value.instructions[..] == Decode(node, syn, first).value
      ensures r.Failure? ==> r.error == Decode(node, syn, first).error
      ensures first == 0 ==> (r.Failure? <==> |Clauses(node, syn.sep)| >= 1)
    {
      var list: seq<Instruction> := [];
      var n := node;
      assert Decode(node, syn, first).Success? ==> [] + Decode(node, syn, first).value == Decode(node, syn, first).value;
      while Decompose(n, syn.sep).Some?
        invariant Prepend(list, Decode(n, syn, first)) == Decode(node, syn, first)
        decreases Size(n)
      {
        var tree := Decompose(n, syn.sep).value;
        var inst := ParseInstruction(tree.left, syn, first);
        if inst.Failure? {
          DecodeStep(n, syn, first);
          r := Failure(inst.error);
          break;
        }
        var rest := Decode(tree.right, syn, first);
        DecodeStep(n, syn, first);
        if rest.Success? {
          assert list + ([inst.value] + rest.value) == (list + [inst.value]) + rest.value;
        }
        list := list + [inst.value];
        n := tree.right;
      }
      if Decompose(n, syn.sep).None? {
        var e := new InstructionCodeExecutor(list);
        r := Success(e);
      }
      if first == 0 {
        AsWrittenProgramFails(node, syn);
      }
    }

    /** execute(): runs the first instruction on a fresh bank of zeroed
      * registers; the final machine is returned so that it can be stated. */
    method Execute() returns (r: Result<Machine, Fault>)
      ensures r == Run(instructions[..])
    {
      var ip := 0;
      var registers := new int[RegisterCount](_ => 0);
      assert registers[..] == seq(RegisterCount, _ => 0);
      if instructions.Length == 0 {
        return Failure(IndexOutOfBounds);
      }
      var inst := instructions[ip];
      match inst.insn {
        case EVALADD =>
          if !(0 <= inst.op1 < RegisterCount && 0 <= inst.op2 < RegisterCount && 0 <= inst.op3 < RegisterCount) {
            return Failure(IndexOutOfBounds);
          }
          registers[inst.op1] := Wrap32(registers[inst.op2] + registers[inst.op3]);
        case JUMP =>
          ip := inst.op1;
        case _ =>
      }
      r := Success(Machine(registers[..], ip));
    }
  }
}
