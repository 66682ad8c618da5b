/**
 * One step of the logic dialect of the instruction executor: the opcodes
 * BIND, BIND-UNDO, CUT-BEGIN, CUT-END, CUT-FAIL and PROVE-SYS, which keep a
 * stack of bind points (journal snapshots), a list of cut points, the call
 * stack pointer and the instruction pointer of the running closure.
 *
 * The unifier (Binder.bind) and the system predicates are not part of this
 * model: their answers for the step are passed in as an External value. The
 * journal is a sequence of entries whose point in time is its length.
 */
module LogicVM {
  import opened Wrappers
  import opened Terms
  import Utils

  /** Size of the bind-point stack. */
  const StackSize: nat := 4096

  /** One binding recorded in the journal; only how many there are matters here. */
  datatype Entry = Entry(reference: int)

  /** The shared binding journal (trail). */
  class Journal {
    var entries: seq<Entry>

    constructor ()
      ensures entries == []
    {
      entries := [];
    }

    /** getPointInTime(): the number of bindings recorded so far. */
    function PointInTime(): (p: nat)
      reads this
      ensures p == |entries|
    {
      |entries|
    }

    /** The bindings the unifier writes while it runs. */
    method Record(added: seq<Entry>)
      modifies this
      ensures entries == old(entries) + added
    {
      entries := entries + added;
    }

    /** undoBinds(p): reverses every binding newer than point p. */
    method UndoBinds(p: nat)
      modifies this
      ensures entries == Utils.Truncated(old(entries), p)
    {
      entries := Utils.Truncated(entries, p);
    }
  }

  /** A register bank. */
  class Frame {
    const registers: array<Term>

    constructor (registers: array<Term>)
      ensures this.registers == registers
    {
      this.registers := registers;
    }
  }

  /** The running closure: its frame and its instruction pointer. */
  class Closure {
    const frame: Frame
    var ip: int

    constructor (frame: Frame, ip: int)
      ensures this.frame == frame && this.ip == ip
    {
      this.frame := frame;
      this.ip := ip;
    }
  }

  /** The opcodes this executor handles; every other one goes to the generic executor. */
  datatype Opcode = BIND | BINDUNDO | CUTBEGIN | CUTEND | CUTFAIL | PROVESYS | Generic(code: int)

  datatype Instruction = Instruction(insn: Opcode, op1: int, op2: int, op3: int)

  /** A cut point: the journal point and call stack pointer when the cuttable scope began. */
  datatype CutPoint = CutPoint(journalPointer: nat, callStackPointer: nat)

  /** The answers of the collaborators for one step: whether Binder.bind unified
    * the two registers and which bindings it wrote (it writes them whether or
    * not it succeeds), and whether the system predicate call succeeded. */
  datatype External = External(unifies: bool, bound: seq<Entry>, provable: bool)

  /** The Java exceptions a logic opcode can raise. */
  datatype Fault = ArrayIndexOutOfBounds | ClassCast | IndexOutOfBounds

  /** Everything a logic opcode reads or writes. */
  datatype VmState = VmState(
    journal: seq<Entry>,
    bindPoints: seq<nat>,
    bsp: int,
    cutPoints: seq<CutPoint>,
    regs: seq<Term>,
    ip: int,
    callStack: seq<Closure?>,
    csp: int)

  /** How one step ends: it returns, throws leaving the given state, or is left to the generic executor. */
  datatype StepResult = Next(state: VmState) | Fault(fault: Fault, state: VmState) | Delegate

  /** The register operands the opcode uses exist (the compiler never emits others). */
  predicate OperandsFit(insn: Instruction, registerCount: nat)
  {
    match insn.insn
    case BIND => 0 <= insn.op1 < registerCount && 0 <= insn.op2 < registerCount
    case BINDUNDO => true
    case Generic(_) => true
    case _ => 0 <= insn.op1 < registerCount
  }

  /** The executor's own invariant, stated on a snapshot. */
  predicate Wf(s: VmState)
  {
    && |s.bindPoints| == StackSize
    && 0 <= s.bsp <= StackSize
    && 0 <= s.csp <= |s.callStack|
    && forall k :: 0 <= k < |s.cutPoints| ==> s.cutPoints[k].callStackPointer <= |s.callStack|
  }

  /** The call stack with the slots in [lo, hi) set to null. */
  function NullSlots(cs: seq<Closure?>, lo: int, hi: int): (r: seq<Closure?>)
    ensures |r| == |cs|
    ensures forall i :: 0 <= i < |cs| ==> r[i] == if lo <= i < hi then null else cs[i]
  {
    seq(|cs|, i requires 0 <= i < |cs| => if lo <= i < hi then null else cs[i])
  }

  /** g(regs[op1]) used as an index into the cut points. The base executor's
    * g is taken to be the `(Int)` cast of the register itself: a register
    * holding a bound Reference is not followed to its value. */
  function CutIndex(s: VmState, reg: int): Result<nat, Fault>
    requires 0 <= reg < |s.regs|
  {
    var v := s.regs[reg];
    if !v.Int? then Failure(ClassCast)
    else if !(0 <= v.number < |s.cutPoints|) then Failure(IndexOutOfBounds)
    else Success(v.number)
  }

  /** The effect of one logic opcode on the executor's state. */
  function Step(s: VmState, insn: Instruction, ext: External): StepResult
    requires Wf(s) && OperandsFit(insn, |s.regs|)
  {
    match insn.insn
    case BIND =>
      if s.bsp == StackSize then Fault(ArrayIndexOutOfBounds, s.(bsp := s.bsp + 1))
      else
        var s1 := s.(bindPoints := s.bindPoints[s.bsp := |s.journal|], bsp := s.bsp + 1,
                      journal := s.journal + ext.bound);
        Next(if ext.unifies then s1 else s1.(ip := insn.op3))
    case BINDUNDO =>
      if s.bsp == 0 then Fault(ArrayIndexOutOfBounds, s.(bsp := -1))
      else Next(s.(bsp := s.bsp - 1, journal := Utils.Truncated(s.journal, s.bindPoints[s.bsp - 1])))
    case CUTBEGIN =>
      Next(s.(regs := s.regs[insn.op1 := Int(|s.cutPoints|)],
              cutPoints := s.cutPoints + [CutPoint(|s.journal|, s.csp)]))
    case CUTEND =>
      (match CutIndex(s, insn.op1)
       case Failure(f) => Fault(f, s)
       case Success(i) =>
         var p := s.cutPoints[i].callStackPointer;
         if s.csp > p then Next(s.(csp := p, callStack := NullSlots(s.callStack, p, s.csp))) else Next(s))
    case CUTFAIL =>
      (match CutIndex(s, insn.op1)
       case Failure(f) => Fault(f, s)
       case Success(i) =>
         Next(s.(journal := Utils.Truncated(s.journal, s.cutPoints[i].journalPointer),
                 cutPoints := s.cutPoints[..i], ip := insn.op2)))
    case PROVESYS =>
      Next(if ext.provable then s else s.(ip := insn.op2))
    case Generic(_) => Delegate
  }

  /** What execute hands back: the new call and data stack pointers, an exception, or delegation. */
  datatype ExecResult = Returned(csp: int, dsp: int) | Threw(fault: Fault) | Delegated

  class LogicInstructionExecutor {
    const journal: Journal
    const bindPoints: array<nat>
    var bsp: int
    const cutPoints: Utils.ArrayList<CutPoint>

    ghost predicate Valid()
      reads this
    {
      bindPoints.Length == StackSize && 0 <= bsp <= StackSize
    }

    /** A fresh executor over the prover's journal: empty bind-point stack and cut-point list. */
    constructor (journal: Journal)
      ensures Valid() && this.journal == journal
      ensures bsp == 0 && cutPoints.elems == []
      ensures fresh(bindPoints) && fresh(cutPoints)
    {
      this.journal := journal;
      bindPoints := new nat[StackSize];
      bsp := 0;
      cutPoints := new Utils.ArrayList();
    }

    ghost function Snapshot(current: Closure, callStack: array<Closure?>, csp: int): VmState
      reads this, journal, bindPoints, cutPoints, current, current.frame.registers, callStack
    {
      VmState(journal.entries, bindPoints[..], bsp, cutPoints.elems, current.frame.registers[..],
              current.ip, callStack[..], csp)
    }

    /** execute(current, insn, callStack, csp, dataStack, dsp) for the logic opcodes. */
    method Execute(current: Closure, insn: Instruction, callStack: array<Closure?>, csp: int,
                   dsp: int, ext: External) returns (r: ExecResult)
      requires Valid()
      requires Wf(Snapshot(current, callStack, csp))
      requires OperandsFit(insn, current.frame.registers.Length)
      modifies this, journal, bindPoints, cutPoints, current, current.frame.registers, callStack
      ensures var spec := Step(old(Snapshot(current, callStack, csp)), insn, ext);
        && (spec.Next? <==> r.Returned?)
        && (spec.Fault? <==> r.Threw?)
        && (spec.Delegate? <==> r.Delegated?)
        && (r.Returned? ==> r.dsp == dsp && Snapshot(current, callStack, r.csp) == spec.state)
        && (r.Threw? ==> r.fault == spec.fault && Snapshot(current, callStack, csp) == spec.state)
        && (r.Delegated? ==> Snapshot(current, callStack, csp) == old(Snapshot(current, callStack, csp)))
    {
      var regs := current.frame.registers;
      var sp := csp;
      match insn.insn {
        case BIND =>
          if bsp == StackSize {
            bsp := bsp + 1;
            return Threw(ArrayIndexOutOfBounds);
          }
          bindPoints[bsp] := journal.PointInTime();
          bsp := bsp + 1;
          journal.Record(ext.bound);
          if !ext.unifies {
            current.ip := insn.op3;
          }
        case BINDUNDO =>
          if bsp == 0 {
            bsp := -1;
            return Threw(ArrayIndexOutOfBounds);
          }
          bsp := bsp - 1;
          journal.UndoBinds(bindPoints[bsp]);
        case CUTBEGIN =>
          regs[insn.op1] := Int(cutPoints.Size());
          cutPoints.Add(CutPoint(journal.PointInTime(), sp));
        case CUTEND =>
          var v := regs[insn.op1];
          if !v.Int? {
            return Threw(ClassCast);
          } else if !(0 <= v.number < cutPoints.Size()) {
            return Threw(IndexOutOfBounds);
          }
          var p := cutPoints.elems[v.number].callStackPointer;
          ghost var stack0 := callStack[..];
          while sp > p
            invariant p <= sp <= csp || sp == csp
            invariant callStack[..] == NullSlots(stack0, sp, csp)
            modifies callStack
          {
            sp := sp - 1;
            callStack[sp] := null;
          }
        case CUTFAIL =>
          var v := regs[insn.op1];
          if !v.Int? {
            return Threw(ClassCast);
          } else if !(0 <= v.number < cutPoints.Size()) {
            return Threw(IndexOutOfBounds);
          }
          var cutPointIndex := v.number;
          var cutPoint := cutPoints.elems[cutPointIndex];
          journal.UndoBinds(cutPoint.journalPointer);
          var _ := Utils.Truncate(cutPoints, cutPointIndex);
          current.ip := insn.op2;
        case PROVESYS =>
          if !ext.provable {
            current.ip := insn.op2;
          }
        case Generic(_) =>
          return Delegated;
      }
      r := Returned(sp, dsp);
    }
  }

  // Properties of one step, stated on snapshots.

  /** Every logic step that returns keeps the executor's invariant. */
  lemma StepPreservesWf(s: VmState, insn: Instruction, ext: External)
    requires Wf(s) && OperandsFit(insn, |s.regs|)
    ensures Step(s, insn, ext).Next? ==> Wf(Step(s, insn, ext).state)
  {
  }

  /** BIND pushes the journal point and moves bsp up by one whether or not
    * unification succeeds, jumps to op3 exactly when it fails, and throws
    * exactly when the bind-point stack is full. */
  lemma BindPushes(s: VmState, insn: Instruction, ext: External)
    requires Wf(s) && OperandsFit(insn, |s.regs|) && insn.insn == BIND
    ensures Step(s, insn, ext).Fault? <==> s.bsp == StackSize
    ensures s.bsp < StackSize ==>
      var t := Step(s, insn, ext).state;
      && t.bsp == s.bsp + 1
      && t.bindPoints[s.bsp] == |s.journal|
      && (forall k :: 0 <= k < StackSize && k != s.bsp ==> t.bindPoints[k] == s.bindPoints[k])
      && t.journal == s.journal + ext.bound
      && t.ip == (if ext.unifies then s.ip else insn.op3)
      && t.cutPoints == s.cutPoints && t.csp == s.csp && t.callStack == s.callStack && t.regs == s.regs
  {
  }

  /** BIND-UNDO pops the most recent bind point and undoes the journal to it;
    * it throws exactly when the stack is empty. */
  lemma BindUndoPops(s: VmState, insn: Instruction, ext: External)
    requires Wf(s) && OperandsFit(insn, |s.regs|) && insn.insn == BINDUNDO
    ensures Step(s, insn, ext).Fault? <==> s.bsp == 0
    ensures s.bsp > 0 ==>
      var t := Step(s, insn, ext).state;
      && t.bsp == s.bsp - 1
      && t.journal == Utils.Truncated(s.journal, s.bindPoints[s.bsp - 1])
      && t.ip == s.ip && t.cutPoints == s.cutPoints && t.csp == s.csp && t.callStack == s.callStack
      && t.regs == s.regs && t.bindPoints == s.bindPoints
  {
  }

  /** A BIND immediately followed by BIND-UNDO restores bsp and the journal,
    * discarding whatever the unifier recorded. */
  lemma BindThenUndo(s: VmState, bind: Instruction, undo: Instruction, ext1: External, ext2: External)
    requires Wf(s) && s.bsp < StackSize
    requires bind.insn == BIND && undo.insn == BINDUNDO && OperandsFit(bind, |s.regs|)
    ensures var t := Step(s, bind, ext1).state;
      OperandsFit(undo, |t.regs|) && Wf(t) &&
      var u := Step(t, undo, ext2);
      u.Next? && u.state.bsp == s.bsp && u.state.journal == s.journal
  {
    var t := Step(s, bind, ext1).state;
    assert t.bindPoints[t.bsp - 1] == |s.journal|;
    assert Utils.Truncated(t.journal, |s.journal|) == s.journal;
  }

  /** CUT-BEGIN stores the old cut-point count in op1 and appends exactly one
    * cut point recording the journal point and csp. */
  lemma CutBeginAppends(s: VmState, insn: Instruction, ext: External)
    requires Wf(s) && OperandsFit(insn, |s.regs|) && insn.insn == CUTBEGIN
    ensures Step(s, insn, ext).Next?
    ensures var t := Step(s, insn, ext).state;
      && |t.regs| == |s.regs| && t.regs[insn.op1] == Int(|s.cutPoints|)
      && (forall k :: 0 <= k < |s.regs| && k != insn.op1 ==> t.regs[k] == s.regs[k])
      && t.cutPoints == s.cutPoints + [CutPoint(|s.journal|, s.csp)]
      && t.cutPoints[..|s.cutPoints|] == s.cutPoints
      && t.journal == s.journal && t.bsp == s.bsp && t.csp == s.csp && t.ip == s.ip
      && t.callStack == s.callStack && t.bindPoints == s.bindPoints
  {
  }

  /** CUT-END lowers csp to the recorded call stack pointer, nulling the
    * abandoned slots; it is a no-op when csp is already at or below it, and
    * never touches the journal or the cut points. */
  lemma CutEndLowers(s: VmState, insn: Instruction, ext: External, i: nat)
    requires Wf(s) && OperandsFit(insn, |s.regs|) && insn.insn == CUTEND
    requires s.regs[insn.op1] == Int(i) && i < |s.cutPoints|
    ensures Step(s, insn, ext).Next?
    ensures var t := Step(s, insn, ext).state; var p := s.cutPoints[i].callStackPointer;
      && t.csp == Utils.Min(s.csp, p)
      && (forall k :: 0 <= k < |s.callStack| ==>
            t.callStack[k] == if p <= k < s.csp then null else s.callStack[k])
      && (s.csp <= p ==> t == s)
      && t.journal == s.journal && t.cutPoints == s.cutPoints && t.bsp == s.bsp && t.ip == s.ip
      && t.regs == s.regs && t.bindPoints == s.bindPoints
  {
  }

  /** CUT-FAIL undoes the journal to the cut point, drops that cut point and
    * every later one, jumps to op2, and leaves bsp and csp alone. */
  lemma CutFailRestores(s: VmState, insn: Instruction, ext: External, i: nat)
    requires Wf(s) && OperandsFit(insn, |s.regs|) && insn.insn == CUTFAIL
    requires s.regs[insn.op1] == Int(i) && i < |s.cutPoints|
    ensures Step(s, insn, ext).Next?
    ensures var t := Step(s, insn, ext).state;
      && t.journal == Utils.Truncated(s.journal, s.cutPoints[i].journalPointer)
      && |t.cutPoints| == i && t.cutPoints == s.cutPoints[..i]
      && t.ip == insn.op2
      && t.bsp == s.bsp && t.csp == s.csp && t.callStack == s.callStack
      && t.regs == s.regs && t.bindPoints == s.bindPoints
  {
  }

  /** A cut index that is not an integer, or names no cut point, makes
    * CUT-END and CUT-FAIL throw without changing anything. */
  lemma CutOpcodesFault(s: VmState, insn: Instruction, ext: External)
    requires Wf(s) && OperandsFit(insn, |s.regs|) && (insn.insn == CUTEND || insn.insn == CUTFAIL)
    ensures Step(s, insn, ext).Fault? <==>
      !(s.regs[insn.op1].Int? && 0 <= s.regs[insn.op1].number < |s.cutPoints|)
    ensures Step(s, insn, ext).Fault? ==> Step(s, insn, ext).state == s
  {
  }

  /** PROVE-SYS never throws; it moves ip to op2 exactly when the system
    * predicate fails, and changes nothing but ip. */
  lemma ProveSysJumps(s: VmState, insn: Instruction, ext: External)
    requires Wf(s) && OperandsFit(insn, |s.regs|) && insn.insn == PROVESYS
    ensures Step(s, insn, ext).Next?
    ensures var t := Step(s, insn, ext).state;
      && t.ip == (if ext.provable then s.ip else insn.op2)
      && t.(ip := s.ip) == s
  {
  }

  /** Only CUT-END moves the call stack pointer or touches the call stack. */
  lemma OnlyCutEndMovesCsp(s: VmState, insn: Instruction, ext: External)
    requires Wf(s) && OperandsFit(insn, |s.regs|) && insn.insn != CUTEND
    ensures Step(s, insn, ext).Next? ==>
      Step(s, insn, ext).state.csp == s.csp && Step(s, insn, ext).state.callStack == s.callStack
  {
  }

  /** A CUT-BEGIN followed by a CUT-FAIL on the register it wrote forgets the
    * new cut point and restores the journal to where it was. */
  lemma CutBeginThenFail(s: VmState, begin: Instruction, fail: Instruction, ext1: External, ext2: External)
    requires Wf(s) && begin.insn == CUTBEGIN && OperandsFit(begin, |s.regs|)
    requires fail.insn == CUTFAIL && fail.op1 == begin.op1
    ensures var t := Step(s, begin, ext1).state;
      Wf(t) && OperandsFit(fail, |t.regs|) &&
      var u := Step(t, fail, ext2);
      u.Next? && u.state.cutPoints == s.cutPoints && u.state.journal == s.journal
      && u.state.ip == fail.op2 && u.state.csp == s.csp && u.state.bsp == s.bsp
  {
    var t := Step(s, begin, ext1).state;
    assert t.cutPoints[|s.cutPoints|] == CutPoint(|s.journal|, s.csp);
    assert t.cutPoints[..|s.cutPoints|] == s.cutPoints;
  }
}
