/**
 Critical sections on a microcontroller with one core (source/tbx_critsect.c over the assembly
 routines for ARM Cortex-M): the two functions themselves, and then a state machine in which
 every access to a shared variable or to PRIMASK is a step, with interrupt handlers that may
 preempt between any two steps while interrupts are on.
 */
module CritSectSingle {

  // ---------------------------------------------------------------- the functions in sequence

  /** PRIMASK (true when interrupts are off) and the variables of the module. */
  datatype Cpu = Cpu(masked: bool, counter: nat, saved: bool)

  function Entered(s: Cpu): Cpu {
    Cpu(true, s.counter + 1, if s.counter == 0 then s.masked else s.saved)
  }

  function Left(s: Cpu): Cpu {
    if s.counter == 0 then s
    else Cpu(if s.counter == 1 then s.saved else s.masked, s.counter - 1, s.saved)
  }

  class CriticalSection {
    var primask: bool
    var nestingCounter: nat
    var cpuSR: bool

    function State(): Cpu
      reads this
    {
      Cpu(primask, nestingCounter, cpuSR)
    }

    constructor (masked: bool)
      ensures State() == Cpu(masked, 0, false)
    {
      primask, nestingCounter, cpuSR := masked, 0, false;
    }

    method InterruptsDisable() returns (r0: bool)
      modifies this`primask
      ensures r0 == old(primask) && primask
    {
      r0 := primask;
      primask := true;
    }

    method InterruptsRestore(r0: bool)
      modifies this`primask
      ensures primask == r0
    {
      primask := r0;
    }

    method Enter()
      modifies this
      ensures State() == Entered(old(State()))
    {
      var sr := InterruptsDisable();
      if nestingCounter == 0 {
        cpuSR := sr;
      }
      nestingCounter := nestingCounter + 1;
    }

    method Exit()
      modifies this
      ensures State() == Left(old(State()))
    {
      if nestingCounter > 0 {
        nestingCounter := nestingCounter - 1;
        if nestingCounter == 0 {
          InterruptsRestore(cpuSR);
        }
      }
    }
  }

  /** Well-nested calls: none, or an Enter with its Exit, other calls between them and behind. */
  datatype Calls = NoCalls | Section(inner: Calls, rest: Calls)

  function AfterCalls(s: Cpu, calls: Calls): Cpu
    decreases calls
  {
    match calls
    case NoCalls => s
    case Section(inner, rest) => AfterCalls(Left(AfterCalls(Entered(s), inner)), rest)
  }

  /** Well-nested calls restore the counter and the interrupt mask, and a pending saved mask. */
  lemma {:induction false} CallsRestore(s: Cpu, calls: Calls)
    requires s.counter > 0 ==> s.masked
    ensures var t := AfterCalls(s, calls);
      t.counter == s.counter && t.masked == s.masked && (s.counter > 0 ==> t == s)
    decreases calls
  {
    match calls
    case NoCalls =>
    case Section(inner, rest) =>
      CallsRestore(Entered(s), inner);
      CallsRestore(Left(AfterCalls(Entered(s), inner)), rest);
  }

  // ---------------------------------------------------------------- the functions step by step

  datatype Pc =
    | Program          // outside of Enter and Exit
    | ReadMask         // mrs r0, primask
    | SetMask          // cpsid i
    | TestCounter      // Enter: is this the outermost one?
    | StoreSaved       // tbxCritSectCpuSR
    | LoadCounter      // tbxCritSectNestingCounter++, read ...
    | StoreCounter     // ... and write
    | CheckCounter     // Exit: was there an Enter?
    | LoadToDecrement  // tbxCritSectNestingCounter--, read ...
    | StoreDecremented // ... and write
    | TestLast         // is this the outermost Exit?
    | LoadSaved        // tbxCritSectCpuSR
    | WriteMask        // msr primask, r0

  /** An activation of the main program or of a handler. */
  datatype Frame = Frame(
    pc: Pc,
    depth: nat,    // sections entered and not left yet
    sr: bool,      // r0: whether interrupts are off
    temp: nat,     // the counter between its load and its store
    before: bool)  // whether interrupts were off when the outermost section was entered

  /** The activations, the running one last. */
  datatype State = State(cpu: Cpu, frames: seq<Frame>)

  datatype Action = Proceed | CallEnter | CallExit | Interrupt | Return | Mask(off: bool)

  const NewFrame := Frame(Program, 0, false, 0, false)

  function Running(s: State): Frame
    requires s.frames != []
  {
    s.frames[|s.frames| - 1]
  }

  function With(s: State, cpu: Cpu, f: Frame): State
    requires s.frames != []
  {
    State(cpu, s.frames[..|s.frames| - 1] + [f])
  }

  /** Programs call Exit only after Enter; handlers run only when interrupts are on and are balanced. */
  predicate CanDo(s: State, action: Action) {
    && s.frames != []
    && var f := Running(s);
    match action
    case Proceed => f.pc != Program
    case CallEnter => f.pc == Program
    case CallExit => f.pc == Program && f.depth > 0
    case Interrupt => !s.cpu.masked
    case Return => |s.frames| > 1 && f.pc == Program && f.depth == 0 && !s.cpu.masked
    case Mask(_) => f.pc == Program && f.depth == 0
  }

  /** One step inside Enter or Exit. */
  function Move(cpu: Cpu, f: Frame): (Cpu, Frame) {
    match f.pc
    case Program => (cpu, f)
    case ReadMask => (cpu, f.(pc := SetMask, sr := cpu.masked))
    case SetMask => (cpu.(masked := true), f.(pc := TestCounter))
    case TestCounter =>
      (cpu, f.(pc := if cpu.counter == 0 then StoreSaved else LoadCounter))
    case StoreSaved => (cpu.(saved := f.sr), f.(pc := LoadCounter))
    case LoadCounter => (cpu, f.(pc := StoreCounter, temp := cpu.counter))
    case StoreCounter =>
      (cpu.(counter := f.temp + 1), f.(pc := Program, depth := f.depth + 1))
    case CheckCounter =>
      (cpu, f.(pc := if cpu.counter > 0 then LoadToDecrement else Program))
    case LoadToDecrement => (cpu, f.(pc := StoreDecremented, temp := cpu.counter))
    case StoreDecremented =>
      (cpu.(counter := if f.temp > 0 then f.temp - 1 else 0xFFFF_FFFF),
           f.(pc := TestLast, depth := if f.depth > 0 then f.depth - 1 else 0))
    case TestLast => (cpu, f.(pc := if cpu.counter == 0 then LoadSaved else Program))
    case LoadSaved => (cpu, f.(pc := WriteMask, sr := cpu.saved))
    case WriteMask => (cpu.(masked := f.sr), f.(pc := Program))
  }

  function Advance(s: State): State
    requires s.frames != []
  {
    var (cpu, f) := Move(s.cpu, Running(s));
    With(s, cpu, f)
  }

  function Next(s: State, action: Action): State
    requires s.frames != []
  {
    var f := Running(s);
    match action
    case Proceed => Advance(s)
    case CallEnter =>
      With(s, s.cpu, f.(pc := ReadMask, before := if f.depth == 0 then s.cpu.masked else f.before))
    case CallExit => With(s, s.cpu, f.(pc := CheckCounter))
    case Interrupt => s.(frames := s.frames + [NewFrame])
    case Return => if |s.frames| > 1 then s.(frames := s.frames[..|s.frames| - 1]) else s
    case Mask(off) => s.(cpu := s.cpu.(masked := off))
  }

  function Start(masked: bool): State {
    State(Cpu(masked, 0, false), [NewFrame])
  }

  predicate Active(s: State) {
    s.frames != []
  }

  /** The states that some interleaving of possible actions leads to. */
  ghost predicate Reaches(masked: bool, actions: seq<Action>, s: State) {
    if actions == [] then s == Start(masked)
    else
      exists p ::
        && Reaches(masked, actions[..|actions| - 1], p) && Active(p)
        && CanDo(p, actions[|actions| - 1]) && s == Next(p, actions[|actions| - 1])
  }

  /** Where a preempted activation waits: outside, or before it has disabled interrupts. */
  predicate Preempted(f: Frame) {
    && f.depth == 0
    && (f.pc == Program || (f.pc == ReadMask && !f.before) || (f.pc == SetMask && !f.before && !f.sr))
  }

  predicate FrameOk(f: Frame, cpu: Cpu) {
    && (f.depth > 0 && (f.pc == Program || f.pc == ReadMask || f.pc == SetMask)
        ==> cpu.masked && cpu.counter == f.depth && cpu.saved == f.before)
    && (f.depth == 0 && (f.pc == ReadMask || f.pc == SetMask) ==> f.before == cpu.masked)
    && match f.pc
       case Program => f.depth == 0 ==> cpu.counter == 0
       case ReadMask => f.depth == 0 ==> cpu.counter == 0
       case SetMask => f.sr == cpu.masked && (f.depth == 0 ==> cpu.counter == 0)
       case TestCounter =>
         cpu.masked && cpu.counter == f.depth
         && (if f.depth == 0 then f.sr == f.before else cpu.saved == f.before)
       case StoreSaved => cpu.masked && cpu.counter == f.depth == 0 && f.sr == f.before
       case LoadCounter => cpu.masked && cpu.counter == f.depth && cpu.saved == f.before
       case StoreCounter => cpu.masked && cpu.counter == f.depth == f.temp && cpu.saved == f.before
       case CheckCounter => cpu.masked && cpu.counter == f.depth > 0 && cpu.saved == f.before
       case LoadToDecrement => cpu.masked && cpu.counter == f.depth > 0 && cpu.saved == f.before
       case StoreDecremented =>
         cpu.masked && cpu.counter == f.depth == f.temp > 0 && cpu.saved == f.before
       case TestLast => cpu.masked && cpu.counter == f.depth && cpu.saved == f.before
       case LoadSaved => cpu.masked && cpu.counter == f.depth == 0 && cpu.saved == f.before
       case WriteMask => cpu.masked && cpu.counter == f.depth == 0 && f.sr == f.before
  }

  ghost predicate Inv(s: State) {
    && s.frames != []
    && FrameOk(Running(s), s.cpu)
    && forall i | 0 <= i < |s.frames| - 1 :: Preempted(s.frames[i])
  }

  lemma RunningReplaced(s: State, cpu: Cpu, f: Frame)
    requires s.frames != []
    ensures var s' := With(s, cpu, f);
      && s'.frames != [] && Running(s') == f && |s'.frames| == |s.frames|
      && forall i | 0 <= i < |s.frames| - 1 :: s'.frames[i] == s.frames[i]
  {
  }

  /** Every step keeps the invariant. */
  lemma NextInv(s: State, action: Action)
    requires Inv(s) && CanDo(s, action)
    ensures Inv(Next(s, action))
  {
    if action.Proceed? {
      AdvanceInv(s);
    }
  }

  lemma AdvanceInv(s: State)
    requires Inv(s) && CanDo(s, Proceed)
    ensures Inv(Advance(s))
  {
    hide Preempted;
    RunningReplaced(s, Advance(s).cpu, Running(Advance(s)));
  }

  lemma {:induction false} ReachesInv(masked: bool, actions: seq<Action>, s: State)
    requires Reaches(masked, actions, s)
    ensures Inv(s)
  {
    hide Inv;
    if actions == [] {
      StartInv(masked);
    } else {
      var p :| && Reaches(masked, actions[..|actions| - 1], p) && Active(p)
               && CanDo(p, actions[|actions| - 1]) && s == Next(p, actions[|actions| - 1]);
      ReachesInv(masked, actions[..|actions| - 1], p);
      NextInv(p, actions[|actions| - 1]);
    }
  }

  lemma StartInv(masked: bool)
    ensures Inv(Start(masked))
  {
  }

  // ---------------------------------------------------------------- both views agree

  /** The steps of a function that is not preempted, up to its end, at most n. */
  function Finish(cpu: Cpu, f: Frame, n: nat): (Cpu, Frame)
    decreases n
  {
    if n == 0 || f.pc.Program? then (cpu, f)
    else
      var (cpu1, f1) := Move(cpu, f);
      Finish(cpu1, f1, n - 1)
  }

  lemma FinishStep(cpu: Cpu, f: Frame, n: nat)
    requires n > 0 && !f.pc.Program?
    ensures Finish(cpu, f, n) == Finish(Move(cpu, f).0, Move(cpu, f).1, n - 1)
  {
  }

  /** The steps of Enter, not preempted, do what the function does as a whole. */
  lemma EnterFinished(cpu: Cpu, f: Frame)
    requires f.pc.Program?
    ensures var (cpu', f') := Finish(cpu, f.(pc := ReadMask), 7);
      cpu' == Entered(cpu) && f'.pc.Program? && f'.depth == f.depth + 1
  {
    hide Finish;
    var f0 := f.(pc := ReadMask);
    var (c1, f1) := Move(cpu, f0);
    var (c2, f2) := Move(c1, f1);
    var (c3, f3) := Move(c2, f2);
    FinishStep(cpu, f0, 7);
    FinishStep(c1, f1, 6);
    FinishStep(c2, f2, 5);
    EnterCounts(c3, f3, 4);
  }

  /** The rest of Enter, once the counter was tested. */
  lemma EnterCounts(cpu: Cpu, f: Frame, n: nat)
    requires n >= 3 && (f.pc.StoreSaved? || f.pc.LoadCounter?)
    ensures var (cpu', f') := Finish(cpu, f, n);
      && cpu' == cpu.(counter := cpu.counter + 1, saved := if f.pc.StoreSaved? then f.sr else cpu.saved)
      && f'.pc.Program? && f'.depth == f.depth + 1
    decreases n
  {
    FinishStep(cpu, f, n);
    var (c1, f1) := Move(cpu, f);
    if f.pc.StoreSaved? && n > 3 {
      EnterCounts(c1, f1, n - 1);
    } else {
      FinishStep(c1, f1, n - 1);
      var (c2, f2) := Move(c1, f1);
      if f.pc.StoreSaved? {
        FinishStep(c2, f2, n - 2);
      }
    }
  }

  /** The same for Exit. */
  lemma ExitFinished(cpu: Cpu, f: Frame)
    requires f.pc.Program? && (f.depth > 0 ==> cpu.counter > 0)
    ensures var (cpu', f') := Finish(cpu, f.(pc := CheckCounter), 6);
      && cpu' == Left(cpu) && f'.pc.Program?
      && f'.depth == if f.depth > 0 then f.depth - 1 else 0
  {
    hide Finish;
    var f0 := f.(pc := CheckCounter);
    FinishStep(cpu, f0, 6);
    if cpu.counter == 0 {
      FinishEnd(cpu, f, 5);
    } else {
      ExitCounts(cpu, f.(pc := LoadToDecrement));
      hide Left, Move;
    }
  }

  lemma ExitCounts(cpu: Cpu, f: Frame)
    requires f.pc.LoadToDecrement? && cpu.counter > 0
    ensures var (cpu', f') := Finish(cpu, f, 5);
      && cpu' == Left(cpu) && f'.pc.Program?
      && f'.depth == if f.depth > 0 then f.depth - 1 else 0
  {
    hide Finish;
    var (c1, f1) := Move(cpu, f);
    FinishStep(cpu, f, 5);
    FinishStep(c1, f1, 4);
    ExitLeaves(Move(c1, f1).0, Move(c1, f1).1);
  }

  /** The rest of Exit, once the counter was decremented. */
  lemma ExitLeaves(cpu: Cpu, f: Frame)
    requires f.pc.TestLast?
    ensures var (cpu', f') := Finish(cpu, f, 3);
      && cpu' == cpu.(masked := if cpu.counter == 0 then cpu.saved else cpu.masked)
      && f'.pc.Program? && f'.depth == f.depth
  {
    hide Finish;
    var (c1, f1) := Move(cpu, f);
    FinishStep(cpu, f, 3);
    if cpu.counter == 0 {
      var (c2, f2) := Move(c1, f1);
      FinishStep(c1, f1, 2);
      FinishStep(c2, f2, 1);
      FinishEnd(Move(c2, f2).0, Move(c2, f2).1, 0);
    } else {
      FinishEnd(c1, f1, 2);
    }
  }

  lemma FinishEnd(cpu: Cpu, f: Frame, n: nat)
    requires n == 0 || f.pc.Program?
    ensures Finish(cpu, f, n) == (cpu, f)
  {
  }

  /** The running activation goes on, not preempted, to the end of Enter or Exit. */
  function Complete(s: State, n: nat): State
    requires s.frames != []
    decreases n
  {
    if n == 0 || Running(s).pc.Program? then s else Complete(Advance(s), n - 1)
  }

  lemma {:induction false} CompleteMoves(s: State, n: nat)
    requires s.frames != []
    ensures var (cpu, f) := Finish(s.cpu, Running(s), n); Complete(s, n) == With(s, cpu, f)
    decreases n
  {
    hide Move;
    if n == 0 || Running(s).pc.Program? {
      assert s.frames == s.frames[..|s.frames| - 1] + [Running(s)];
    } else {
      var (cpu, f) := Move(s.cpu, Running(s));
      RunningReplaced(s, cpu, f);
      CompleteMoves(With(s, cpu, f), n - 1);
    }
  }

  /** Enter can be called outside of both functions, and runs to its end as the function does. */
  lemma EnterCompletes(s: State)
    requires s.frames != [] && Running(s).pc.Program?
    ensures CanDo(s, CallEnter)
    ensures var t := Complete(Next(s, CallEnter), 7);
      && t.cpu == Entered(s.cpu) && |t.frames| == |s.frames|
      && Running(t).pc.Program? && Running(t).depth == Running(s).depth + 1
      && forall i | 0 <= i < |s.frames| - 1 :: t.frames[i] == s.frames[i]
  {
    hide Move, Complete, Finish, Entered;
    var f := Running(s).(before := if Running(s).depth == 0 then s.cpu.masked else Running(s).before);
    RunningReplaced(s, s.cpu, f.(pc := ReadMask));
    var t := Next(s, CallEnter);
    assert t == With(s, s.cpu, f.(pc := ReadMask));
    EnterFinished(s.cpu, f);
    CompleteMoves(t, 7);
    var (cpu, g) := Finish(s.cpu, f.(pc := ReadMask), 7);
    RunningReplaced(t, cpu, g);
  }

  /** The same for Exit, inside of a section. */
  lemma ExitCompletes(s: State)
    requires s.frames != [] && Running(s).pc.Program? && Running(s).depth > 0 && s.cpu.counter > 0
    ensures CanDo(s, CallExit)
    ensures var t := Complete(Next(s, CallExit), 6);
      && t.cpu == Left(s.cpu) && |t.frames| == |s.frames|
      && Running(t).pc.Program? && Running(t).depth == Running(s).depth - 1
      && forall i | 0 <= i < |s.frames| - 1 :: t.frames[i] == s.frames[i]
  {
    hide Move, Complete, Finish, Left;
    var f := Running(s);
    RunningReplaced(s, s.cpu, f.(pc := CheckCounter));
    var t := Next(s, CallExit);
    assert t == With(s, s.cpu, f.(pc := CheckCounter));
    ExitFinished(s.cpu, f);
    CompleteMoves(t, 6);
    var (cpu, g) := Finish(s.cpu, f.(pc := CheckCounter), 6);
    RunningReplaced(t, cpu, g);
  }

  /** Interrupts on: a handler comes, enters and leaves a section and returns, and leaves no trace. */
  lemma HandlerLeavesNoTrace(s: State)
    requires s.frames != [] && !s.cpu.masked && s.cpu.counter == 0
    ensures CanDo(s, Interrupt)
    ensures var inside := Complete(Next(Next(s, Interrupt), CallEnter), 7);
      && inside.frames != [] && inside.cpu == Cpu(true, 1, false)
      && var left := Complete(Next(inside, CallExit), 6);
      && left.frames != [] && CanDo(left, Return)
      && Next(left, Return) == State(Cpu(false, 0, false), s.frames)
  {
    hide Complete, Advance;
    var h := Next(s, Interrupt);
    EnterCompletes(h);
    var inside := Complete(Next(h, CallEnter), 7);
    ExitCompletes(inside);
    var left := Complete(Next(inside, CallExit), 6);
    assert left.frames[..|left.frames| - 1] == s.frames;
  }

  // ---------------------------------------------------------------- what it guarantees

  /**
   In every interleaving, while the counter is not zero interrupts are off, no preempted
   activation is inside a section, and once the outermost Enter has stored it, the saved mask is
   the one that it found.
   */
  lemma SectionIsProtected(masked: bool, actions: seq<Action>, s: State)
    requires Reaches(masked, actions, s)
    ensures s.frames != []
    ensures s.cpu.counter > 0 ==> s.cpu.masked && s.cpu.saved == Running(s).before
    ensures Running(s).depth > 0 ==> s.cpu.masked && !CanDo(s, Interrupt)
    ensures Running(s).pc.Program? ==> s.cpu.counter == Running(s).depth
    ensures forall i | 0 <= i < |s.frames| - 1 :: s.frames[i].depth == 0
  {
    ReachesInv(masked, actions, s);
  }

  /** The outermost Exit writes the mask that the outermost Enter of this activation found. */
  lemma ExitRestoresMask(masked: bool, actions: seq<Action>, s: State)
    requires Reaches(masked, actions, s) && s.frames != [] && Running(s).pc.WriteMask?
    ensures Advance(s).cpu == Cpu(Running(s).before, 0, s.cpu.saved)
  {
    ReachesInv(masked, actions, s);
    hide Reaches, Preempted;
  }

  /** Only the outermost Enter notes a mask, and it notes the one that it finds. */
  lemma OnlyOutermostEnterNotes(s: State, action: Action, i: nat)
    requires i < |s.frames|
    ensures var s' := Next(s, action);
      i < |s'.frames| && s'.frames[i].before != s.frames[i].before ==>
        && action.CallEnter? && i == |s.frames| - 1 && s.frames[i].depth == 0
        && s'.frames[i].before == s.cpu.masked
  {
    if action.Proceed? {
      AdvanceKeepsNotes(s);
      hide Advance;
    }
  }

  lemma AdvanceKeepsNotes(s: State)
    requires s.frames != []
    ensures |Advance(s).frames| == |s.frames|
    ensures forall i | 0 <= i < |s.frames| :: Advance(s).frames[i].before == s.frames[i].before
  {
    RunningReplaced(s, Advance(s).cpu, Running(Advance(s)));
    assert Running(Advance(s)).before == Running(s).before;
  }
}
