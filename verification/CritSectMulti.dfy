/**
 Critical sections on a microcontroller with several cores (source/tbx_critsect.c over
 source/port/RP2040/tbx_port.c), as a state machine in which every access to a shared variable,
 to the spin lock and to a core's interrupt mask is a step of its own.  Interrupt handlers may
 preempt between any two steps of a core whose interrupts are on.
 */
module CritSectMulti {

  /** What a program is about to do next. */
  datatype Pc =
    | Program          // outside of Enter and Exit
    | ReadFlag         // TbxPortInterruptsDisable: coreHasLock of this core
    | SaveMask         // spin_lock_blocking: reads the interrupt mask ...
    | SetMask          // ... disables interrupts ...
    | Acquire          // ... and waits for the lock
    | RaiseFlag        // coreHasLock becomes true
    | TestCounter      // Enter: is this the outermost one?
    | StoreSaved       // tbxCritSectCpuSR
    | LoadCounter      // tbxCritSectNestingCounter++, read ...
    | StoreCounter     // ... and write
    | CheckCounter     // Exit: was there an Enter?
    | LoadToDecrement  // tbxCritSectNestingCounter--, read ...
    | StoreDecremented // ... and write
    | TestLast         // is this the outermost Exit?
    | LoadSaved        // tbxCritSectCpuSR
    | ClearFlag        // TbxPortInterruptsRestore: coreHasLock becomes false
    | Unlock           // spin_unlock: frees the lock ...
    | RestoreMask      // ... and writes the interrupt mask

  /** An activation of the main program or of a handler, with the variables of Enter and Exit. */
  datatype Frame = Frame(
    pc: Pc,
    depth: nat,    // sections entered and not left yet
    sr: bool,      // the local copy of the status register: whether interrupts are off
    temp: nat,     // the counter between its load and its store
    before: bool)  // whether interrupts were off when the outermost section was entered

  /** The activations on a core, the running one last, its interrupt mask and its lock flag. */
  datatype Core = Core(frames: seq<Frame>, masked: bool, hasLock: bool)

  const FREE := -1

  /** The spin lock with the number of the core that holds it, and the module's variables. */
  datatype Shared = Shared(holder: int, counter: nat, saved: bool)

  datatype State = State(shared: Shared, cores: seq<Core>)

  datatype Action = Proceed | CallEnter | CallExit | Interrupt | Return | Mask(off: bool)

  // ---------------------------------------------------------------- steps

  const NewFrame := Frame(Program, 0, false, 0, false)

  function Running(core: Core): Frame
    requires core.frames != []
  {
    core.frames[|core.frames| - 1]
  }

  function WithRunning(core: Core, f: Frame): Core
    requires core.frames != []
  {
    core.(frames := core.frames[..|core.frames| - 1] + [f])
  }

  /** Programs call Exit only after Enter; handlers run only when interrupts are on and are balanced. */
  predicate CanDo(shared: Shared, core: Core, action: Action)
    requires core.frames != []
  {
    var f := Running(core);
    match action
    case Proceed => f.pc != Program && (f.pc == Acquire ==> shared.holder == FREE)
    case CallEnter => f.pc == Program
    case CallExit => f.pc == Program && f.depth > 0
    case Interrupt => !core.masked
    case Return => |core.frames| > 1 && f.pc == Program && f.depth == 0 && !core.masked
    case Mask(_) => f.pc == Program && f.depth == 0
  }

  /** The outcome of a step: the shared variables, and the core's mask, flag and running activation. */
  datatype Moved = Moved(shared: Shared, masked: bool, hasLock: bool, f: Frame)

  /** One step inside Enter or Exit. */
  function Move(shared: Shared, masked: bool, hasLock: bool, f: Frame, me: nat): Moved {
    match f.pc
    case Program => Moved(shared, masked, hasLock, f)
    case ReadFlag =>
      Moved(shared, masked, hasLock, if hasLock then f.(pc := TestCounter, sr := false) else f.(pc := SaveMask))
    case SaveMask => Moved(shared, masked, hasLock, f.(pc := SetMask, sr := masked))
    case SetMask => Moved(shared, true, hasLock, f.(pc := Acquire))
    case Acquire => Moved(shared.(holder := me), masked, hasLock, f.(pc := RaiseFlag))
    case RaiseFlag => Moved(shared, masked, true, f.(pc := TestCounter))
    case TestCounter =>
      Moved(shared, masked, hasLock, f.(pc := if shared.counter == 0 then StoreSaved else LoadCounter))
    case StoreSaved => Moved(shared.(saved := f.sr), masked, hasLock, f.(pc := LoadCounter))
    case LoadCounter => Moved(shared, masked, hasLock, f.(pc := StoreCounter, temp := shared.counter))
    case StoreCounter =>
      Moved(shared.(counter := f.temp + 1), masked, hasLock, f.(pc := Program, depth := f.depth + 1))
    case CheckCounter =>
      Moved(shared, masked, hasLock, f.(pc := if shared.counter > 0 then LoadToDecrement else Program))
    case LoadToDecrement =>
      Moved(shared, masked, hasLock, f.(pc := StoreDecremented, temp := shared.counter))
    case StoreDecremented =>
      Moved(shared.(counter := if f.temp > 0 then f.temp - 1 else 0xFFFF_FFFF), masked, hasLock,
            f.(pc := TestLast, depth := if f.depth > 0 then f.depth - 1 else 0))
    case TestLast =>
      Moved(shared, masked, hasLock, f.(pc := if shared.counter == 0 then LoadSaved else Program))
    case LoadSaved => Moved(shared, masked, hasLock, f.(pc := ClearFlag, sr := shared.saved))
    case ClearFlag => Moved(shared, masked, false, f.(pc := Unlock))
    case Unlock => Moved(shared.(holder := FREE), masked, hasLock, f.(pc := RestoreMask))
    case RestoreMask => Moved(shared, f.sr, hasLock, f.(pc := Program))
  }

  function Advance(shared: Shared, core: Core, me: nat): (Shared, Core)
    requires core.frames != []
  {
    var moved := Move(shared, core.masked, core.hasLock, Running(core), me);
    (moved.shared, WithRunning(core, moved.f).(masked := moved.masked, hasLock := moved.hasLock))
  }

  function Effect(shared: Shared, core: Core, me: nat, action: Action): (Shared, Core)
    requires core.frames != []
  {
    var f := Running(core);
    match action
    case Proceed => Advance(shared, core, me)
    case CallEnter =>
      (shared, WithRunning(core, f.(pc := ReadFlag, before := if f.depth == 0 then core.masked else f.before)))
    case CallExit => (shared, WithRunning(core, f.(pc := CheckCounter)))
    case Interrupt => (shared, core.(frames := core.frames + [NewFrame]))
    case Return => (shared, if |core.frames| > 1 then core.(frames := core.frames[..|core.frames| - 1]) else core)
    case Mask(off) => (shared, core.(masked := off))
  }

  ghost predicate Active(s: State) {
    forall c | 0 <= c < |s.cores| :: s.cores[c].frames != []
  }

  /** A core and what it does next. */
  datatype Event = Event(core: nat, action: Action)

  ghost predicate Enabled(s: State, e: Event)
    requires Active(s)
  {
    e.core < |s.cores| && CanDo(s.shared, s.cores[e.core], e.action)
  }

  function Next(s: State, e: Event): (r: State)
    requires e.core < |s.cores| && s.cores[e.core].frames != []
    ensures |r.cores| == |s.cores|
  {
    var (shared, core) := Effect(s.shared, s.cores[e.core], e.core, e.action);
    State(shared, s.cores[e.core := core])
  }

  /** All cores outside of critical sections, with their interrupts on or off as given. */
  function Start(masks: seq<bool>): State {
    State(Shared(FREE, 0, false),
          seq(|masks|, c requires 0 <= c < |masks| => Core([NewFrame], masks[c], false)))
  }

  /** The states that some interleaving of enabled events leads to. */
  ghost predicate Reaches(masks: seq<bool>, events: seq<Event>, s: State) {
    if events == [] then s == Start(masks)
    else
      exists p ::
        && Reaches(masks, events[..|events| - 1], p) && Active(p)
        && Enabled(p, events[|events| - 1]) && s == Next(p, events[|events| - 1])
  }

  // ---------------------------------------------------------------- the invariant

  /** Where a program has the lock. */
  predicate Holding(f: Frame) {
    match f.pc
    case Program => f.depth > 0
    case ReadFlag => f.depth > 0
    case SaveMask => false
    case SetMask => false
    case Acquire => false
    case RestoreMask => false
    case _ => true
  }

  /** Where a preempted activation waits: outside, or before it has disabled interrupts. */
  predicate Preempted(f: Frame) {
    && f.depth == 0
    && (f.pc == Program || ((f.pc == ReadFlag || f.pc == SaveMask) && !f.before)
        || (f.pc == SetMask && !f.before && !f.sr))
  }

  /** What the position of a program says about its variables. */
  predicate FrameOk(f: Frame, masked: bool, counter: nat, saved: bool) {
    match f.pc
    case Program => f.depth > 0 ==> masked && counter == f.depth && saved == f.before
    case ReadFlag =>
      if f.depth > 0 then masked && counter == f.depth && saved == f.before else f.before == masked
    case SaveMask => f.depth == 0 && f.before == masked
    case SetMask => f.depth == 0 && f.before == masked && f.sr == masked
    case Acquire => f.depth == 0 && masked && f.sr == f.before
    case RaiseFlag => f.depth == 0 && masked && f.sr == f.before && counter == 0
    case TestCounter =>
      masked && counter == f.depth && (if f.depth == 0 then f.sr == f.before else saved == f.before)
    case StoreSaved => masked && counter == f.depth == 0 && f.sr == f.before
    case LoadCounter => masked && counter == f.depth && saved == f.before
    case StoreCounter => masked && counter == f.depth == f.temp && saved == f.before
    case CheckCounter => masked && counter == f.depth > 0 && saved == f.before
    case LoadToDecrement => masked && counter == f.depth > 0 && saved == f.before
    case StoreDecremented => masked && counter == f.depth == f.temp > 0 && saved == f.before
    case TestLast => masked && counter == f.depth && saved == f.before
    case LoadSaved => masked && counter == f.depth == 0 && saved == f.before
    case ClearFlag => masked && counter == f.depth == 0 && f.sr == f.before
    case Unlock => masked && counter == f.depth == 0 && f.sr == f.before
    case RestoreMask => f.depth == 0 && masked && f.sr == f.before
  }

  ghost predicate CoreOk(core: Core, holds: bool, counter: nat, saved: bool) {
    && core.frames != []
    && var f := Running(core);
    && FrameOk(f, core.masked, if holds then counter else 0, if holds then saved else f.before)
    && holds == Holding(f)
    && core.hasLock == (holds && f.pc != RaiseFlag && f.pc != Unlock)
    && forall i | 0 <= i < |core.frames| - 1 :: Preempted(core.frames[i])
  }

  ghost predicate Inv(s: State) {
    && (s.shared.holder == FREE ==> s.shared.counter == 0)
    && FREE <= s.shared.holder < |s.cores|
    && forall c | 0 <= c < |s.cores| ::
         CoreOk(s.cores[c], s.shared.holder == c, s.shared.counter, s.shared.saved)
  }

  lemma RunningReplaced(core: Core, f: Frame)
    requires core.frames != []
    ensures var core' := WithRunning(core, f);
      && core'.frames != [] && Running(core') == f && |core'.frames| == |core.frames|
      && core'.masked == core.masked && core'.hasLock == core.hasLock
      && forall i | 0 <= i < |core.frames| - 1 :: core'.frames[i] == core.frames[i]
  {
  }

  /** How a step of one core may change the shared variables. */
  predicate Touches(before: Shared, after: Shared, me: nat) {
    && (after.holder == before.holder || (before.holder == FREE && after.holder == me)
        || (before.holder == me && after.holder == FREE))
    && (before.holder != me ==> after.counter == before.counter && after.saved == before.saved)
    && (after.holder == FREE && before.holder == me ==> after.counter == 0)
  }

  /** A running activation moves on; the preempted ones stay. */
  lemma CoreOkMoved(core: Core, f: Frame, masked: bool, hasLock: bool, holds: bool, counter: nat,
                    saved: bool, holds': bool, counter': nat, saved': bool)
    requires CoreOk(core, holds, counter, saved)
    requires FrameOk(f, masked, if holds' then counter' else 0, if holds' then saved' else f.before)
    requires holds' == Holding(f) && hasLock == (holds' && f.pc != RaiseFlag && f.pc != Unlock)
    ensures CoreOk(WithRunning(core, f).(masked := masked, hasLock := hasLock), holds', counter', saved')
  {
    hide FrameOk, Preempted;
    RunningReplaced(core, f);
  }

  lemma AdvanceOk(shared: Shared, core: Core, me: nat)
    requires CoreOk(core, shared.holder == me, shared.counter, shared.saved)
    requires CanDo(shared, core, Proceed) && (shared.holder == FREE ==> shared.counter == 0)
    ensures var (shared', core') := Advance(shared, core, me);
      && Touches(shared, shared', me)
      && CoreOk(core', shared'.holder == me, shared'.counter, shared'.saved)
  {
    hide Preempted;
    var moved := Move(shared, core.masked, core.hasLock, Running(core), me);
    CoreOkMoved(core, moved.f, moved.masked, moved.hasLock,
                shared.holder == me, shared.counter, shared.saved,
                moved.shared.holder == me, moved.shared.counter, moved.shared.saved);
  }

  lemma EffectOk(shared: Shared, core: Core, me: nat, action: Action)
    requires CoreOk(core, shared.holder == me, shared.counter, shared.saved)
    requires CanDo(shared, core, action) && (shared.holder == FREE ==> shared.counter == 0)
    ensures var (shared', core') := Effect(shared, core, me, action);
      && Touches(shared, shared', me)
      && CoreOk(core', shared'.holder == me, shared'.counter, shared'.saved)
  {
    match action {
      case Proceed => AdvanceOk(shared, core, me);
      case _ =>
    }
  }

  /** A core without the lock does not depend on the shared variables. */
  lemma CoreOkElsewhere(core: Core, counter: nat, saved: bool, counter': nat, saved': bool)
    requires CoreOk(core, false, counter, saved)
    ensures CoreOk(core, false, counter', saved')
  {
  }

  lemma CoreOkActive(core: Core, holds: bool, counter: nat, saved: bool)
    requires CoreOk(core, holds, counter, saved)
    ensures core.frames != []
  {
  }

  /** Every step of every core keeps the invariant. */
  lemma NextInv(s: State, e: Event)
    requires Inv(s) && Active(s) && Enabled(s, e)
    ensures Inv(Next(s, e)) && Active(Next(s, e))
  {
    hide CoreOk, Effect, CanDo;
    var me := e.core;
    var s' := Next(s, e);
    EffectOk(s.shared, s.cores[me], me, e.action);
    forall c | 0 <= c < |s.cores|
      ensures CoreOk(s'.cores[c], s'.shared.holder == c, s'.shared.counter, s'.shared.saved)
      ensures s'.cores[c].frames != []
    {
      if c != me && s.shared.holder != c {
        CoreOkElsewhere(s.cores[c], s.shared.counter, s.shared.saved, s'.shared.counter, s'.shared.saved);
      }
      CoreOkActive(s'.cores[c], s'.shared.holder == c, s'.shared.counter, s'.shared.saved);
    }
  }

  lemma StartInv(masks: seq<bool>)
    ensures Inv(Start(masks)) && Active(Start(masks))
  {
  }

  lemma {:induction false} ReachesInv(masks: seq<bool>, events: seq<Event>, s: State)
    requires Reaches(masks, events, s)
    ensures Inv(s) && Active(s) && |s.cores| == |masks|
  {
    hide Inv;
    if events == [] {
      StartInv(masks);
    } else {
      var p :| && Reaches(masks, events[..|events| - 1], p) && Active(p)
               && Enabled(p, events[|events| - 1]) && s == Next(p, events[|events| - 1]);
      ReachesInv(masks, events[..|events| - 1], p);
      NextInv(p, events[|events| - 1]);
    }
  }

  // ---------------------------------------------------------------- what it guarantees

  /** The core runs code between Enter and Exit. */
  ghost predicate InSection(s: State, c: nat) {
    c < |s.cores| && s.cores[c].frames != [] && Running(s.cores[c]).pc == Program
    && Running(s.cores[c]).depth > 0
  }

  /** In every interleaving at most one core is inside a critical section, with its interrupts off. */
  lemma MutualExclusion(masks: seq<bool>, events: seq<Event>, s: State, c: nat, d: nat)
    requires Reaches(masks, events, s) && InSection(s, c)
    ensures InSection(s, d) ==> c == d
    ensures s.cores[c].masked && s.shared.counter == Running(s.cores[c]).depth
    ensures forall i | 0 <= i < |s.cores[c].frames| - 1 :: s.cores[c].frames[i].depth == 0
  {
    ReachesInv(masks, events, s);
    assert CoreOk(s.cores[c], s.shared.holder == c, s.shared.counter, s.shared.saved);
    if InSection(s, d) {
      assert CoreOk(s.cores[d], s.shared.holder == d, s.shared.counter, s.shared.saved);
    }
  }

  /** Where the nesting counter and the saved status register are read or written. */
  predicate UsesVariables(pc: Pc) {
    pc.TestCounter? || pc.StoreSaved? || pc.LoadCounter? || pc.StoreCounter? || pc.CheckCounter?
    || pc.LoadToDecrement? || pc.StoreDecremented? || pc.TestLast? || pc.LoadSaved?
  }

  /** Only the core that has the lock touches them, and with its interrupts off. */
  lemma VariablesAreProtected(masks: seq<bool>, events: seq<Event>, s: State, c: nat)
    requires Reaches(masks, events, s) && c < |s.cores| && s.cores[c].frames != []
    ensures UsesVariables(Running(s.cores[c]).pc) ==> s.shared.holder == c && s.cores[c].masked
    ensures !UsesVariables(Running(s.cores[c]).pc) ==>
      forall counter: nat, saved: bool ::
        var (shared, core) := Advance(s.shared, s.cores[c], c);
        Advance(s.shared.(counter := counter, saved := saved), s.cores[c], c)
        == (shared.(counter := counter, saved := saved), core)
  {
    ReachesInv(masks, events, s);
    assert CoreOk(s.cores[c], s.shared.holder == c, s.shared.counter, s.shared.saved);
  }

  /**
   No core waits for a lock that it has itself, a nested Enter does not wait at all, and whenever
   a core waits in vain the core with the lock can go on.
   */
  lemma NoSelfDeadlock(masks: seq<bool>, events: seq<Event>, s: State, c: nat)
    requires Reaches(masks, events, s) && c < |s.cores| && s.cores[c].frames != []
    ensures Running(s.cores[c]).depth > 0 ==> !Running(s.cores[c]).pc.Acquire?
    ensures Running(s.cores[c]).pc.Acquire? ==> s.shared.holder != c
    ensures !CanDo(s.shared, s.cores[c], Proceed) && !Running(s.cores[c]).pc.Program? ==>
      var h := s.shared.holder;
      0 <= h < |s.cores| && s.cores[h].frames != [] &&
      (CanDo(s.shared, s.cores[h], Proceed) || CanDo(s.shared, s.cores[h], CallExit))
  {
    ReachesInv(masks, events, s);
    assert CoreOk(s.cores[c], s.shared.holder == c, s.shared.counter, s.shared.saved);
    var h := s.shared.holder;
    if h != FREE {
      assert CoreOk(s.cores[h], s.shared.holder == h, s.shared.counter, s.shared.saved);
    }
  }

  /**
   The outermost Exit writes the interrupt mask that the core had when the outermost Enter was
   called; the number noted then stays noted until it is called again.
   */
  lemma ExitRestoresMask(masks: seq<bool>, events: seq<Event>, s: State, c: nat)
    requires Reaches(masks, events, s) && c < |s.cores| && s.cores[c].frames != []
    requires Running(s.cores[c]).pc.RestoreMask?
    ensures var core := Advance(s.shared, s.cores[c], c).1;
      core.masked == Running(s.cores[c]).before && core.frames != [] && Running(core).depth == 0
      && Running(core).pc.Program?
  {
    ReachesInv(masks, events, s);
    assert CoreOk(s.cores[c], s.shared.holder == c, s.shared.counter, s.shared.saved);
    RunningReplaced(s.cores[c], Running(Advance(s.shared, s.cores[c], c).1));
  }

  /**
   Wherever Enter or Exit ends outside of any section, the core has the interrupt mask that it had
   when the outermost Enter was called, and the lock is not its own.
   */
  lemma LeavesAsItCame(masks: seq<bool>, events: seq<Event>, s: State, c: nat)
    requires Reaches(masks, events, s) && c < |s.cores| && s.cores[c].frames != []
    requires !Running(s.cores[c]).pc.Program? && CanDo(s.shared, s.cores[c], Proceed)
    ensures var (shared, core) := Advance(s.shared, s.cores[c], c);
      core.frames != [] && Running(core).pc.Program? && Running(core).depth == 0 ==>
        core.masked == Running(s.cores[c]).before == Running(core).before && !core.hasLock
        && shared.holder != c
  {
    ReachesInv(masks, events, s);
    assert CoreOk(s.cores[c], s.shared.holder == c, s.shared.counter, s.shared.saved);
    RunningReplaced(s.cores[c], Running(Advance(s.shared, s.cores[c], c).1));
  }

  // ---------------------------------------------------------------- whole calls

  /** The steps of the running activation up to the end of Enter or Exit, at most n, undisturbed. */
  function Finish(m: Moved, me: nat, n: nat): Moved
    decreases n
  {
    if n == 0 || m.f.pc.Program? then m
    else Finish(Move(m.shared, m.masked, m.hasLock, m.f, me), me, n - 1)
  }

  function Complete(shared: Shared, core: Core, me: nat, n: nat): (Shared, Core)
    requires core.frames != []
    decreases n
  {
    if n == 0 || Running(core).pc.Program? then (shared, core)
    else
      var (shared', core') := Advance(shared, core, me);
      Complete(shared', core', me, n - 1)
  }

  function Put(core: Core, m: Moved): Core
    requires core.frames != []
  {
    WithRunning(core, m.f).(masked := m.masked, hasLock := m.hasLock)
  }

  lemma PutTwice(core: Core, m: Moved, m': Moved)
    requires core.frames != []
    ensures Put(core, m).frames != [] && Running(Put(core, m)) == m.f && Put(Put(core, m), m') == Put(core, m')
    ensures Put(core, m).masked == m.masked && Put(core, m).hasLock == m.hasLock
  {
  }

  lemma {:induction false} CompleteMoves(shared: Shared, core: Core, me: nat, n: nat)
    requires core.frames != []
    ensures var m := Finish(Moved(shared, core.masked, core.hasLock, Running(core)), me, n);
      Complete(shared, core, me, n) == (m.shared, Put(core, m))
    decreases n
  {
    var m := Moved(shared, core.masked, core.hasLock, Running(core));
    if n == 0 || Running(core).pc.Program? {
      assert core.frames == core.frames[..|core.frames| - 1] + [Running(core)];
    } else {
      var m1 := Move(shared, core.masked, core.hasLock, Running(core), me);
      PutTwice(core, m1, Finish(m1, me, n - 1));
      CompleteMoves(m1.shared, Put(core, m1), me, n - 1);
      hide Move;
    }
  }

  lemma FinishStep(m: Moved, me: nat, n: nat)
    requires n > 0 && !m.f.pc.Program?
    ensures Finish(m, me, n) == Finish(Move(m.shared, m.masked, m.hasLock, m.f, me), me, n - 1)
  {
  }

  lemma FinishEnd(m: Moved, me: nat, n: nat)
    requires m.f.pc.Program?
    ensures Finish(m, me, n) == m
  {
  }

  /** Enter from the test of the counter on. */
  lemma EnterCounts(m: Moved, me: nat, n: nat)
    requires m.f.pc.TestCounter? && n >= 4
    ensures var r := Finish(m, me, n);
      && r.f.pc.Program? && r.f.depth == m.f.depth + 1 && r.f.before == m.f.before
      && r.masked == m.masked && r.hasLock == m.hasLock && r.shared.holder == m.shared.holder
      && r.shared.counter == m.shared.counter + 1
      && r.shared.saved == if m.shared.counter == 0 then m.f.sr else m.shared.saved
  {
    hide Finish;
    FinishStep(m, me, n);
    var m1 := Move(m.shared, m.masked, m.hasLock, m.f, me);
    if m.shared.counter == 0 {
      FinishStep(m1, me, n - 1);
      var m2 := Move(m1.shared, m1.masked, m1.hasLock, m1.f, me);
      EnterAdds(m2, me, n - 2);
    } else {
      EnterAdds(m1, me, n - 1);
    }
  }

  lemma EnterAdds(m: Moved, me: nat, n: nat)
    requires m.f.pc.LoadCounter? && n >= 2
    ensures Finish(m, me, n) == m.(shared := m.shared.(counter := m.shared.counter + 1),
                                   f := m.f.(pc := Program, depth := m.f.depth + 1, temp := m.shared.counter))
  {
    hide Finish;
    FinishStep(m, me, n);
    var m1 := Move(m.shared, m.masked, m.hasLock, m.f, me);
    FinishStep(m1, me, n - 1);
    FinishEnd(Move(m1.shared, m1.masked, m1.hasLock, m1.f, me), me, n - 2);
  }

  /** The outermost Enter up to the test of the counter: mask, lock, flag. */
  lemma EnterLocks(m: Moved, me: nat, n: nat)
    requires m.f.pc.ReadFlag? && !m.hasLock && n >= 5
    ensures Finish(m, me, n)
            == Finish(Moved(m.shared.(holder := me), true, true, m.f.(pc := TestCounter, sr := m.masked)), me, n - 5)
  {
    hide Finish;
    FinishStep(m, me, n);
    var m1 := Move(m.shared, m.masked, m.hasLock, m.f, me);
    FinishStep(m1, me, n - 1);
    var m2 := Move(m1.shared, m1.masked, m1.hasLock, m1.f, me);
    FinishStep(m2, me, n - 2);
    var m3 := Move(m2.shared, m2.masked, m2.hasLock, m2.f, me);
    FinishStep(m3, me, n - 3);
    var m4 := Move(m3.shared, m3.masked, m3.hasLock, m3.f, me);
    FinishStep(m4, me, n - 4);
  }

  /** The module's variables as they are for a core outside of Enter and Exit. */
  predicate Consistent(shared: Shared, core: Core, me: nat)
    requires core.frames != []
  {
    && Running(core).pc.Program? && shared.counter == Running(core).depth
    && core.hasLock == (Running(core).depth > 0)
    && (if core.hasLock then shared.holder == me && core.masked else shared.holder == FREE)
  }

  /**
   Enter can be called wherever a program is outside of both functions, and if the lock is free or
   the core's own it ends one section deeper, with lock and flag, interrupts off, and the mask
   saved by the outermost call.
   */
  lemma EnterCompletes(shared: Shared, core: Core, me: nat)
    requires core.frames != [] && Consistent(shared, core, me)
    ensures CanDo(shared, core, CallEnter)
    ensures var (shared1, core1) := Effect(shared, core, me, CallEnter);
      core1.frames != []
      && var (shared2, core2) := Complete(shared1, core1, me, 10);
      && shared2 == Shared(me, shared.counter + 1, if shared.counter == 0 then core.masked else shared.saved)
      && core2.frames != [] && core2.masked && core2.hasLock && Consistent(shared2, core2, me)
      && Running(core2).depth == Running(core).depth + 1
      && (Running(core).depth == 0 ==> Running(core2).before == core.masked)
      && core2.frames[..|core2.frames| - 1] == core.frames[..|core.frames| - 1]
  {
    hide Finish, Complete, Move;
    var f := Running(core);
    var f1 := f.(pc := ReadFlag, before := if f.depth == 0 then core.masked else f.before);
    var m := Moved(shared, core.masked, core.hasLock, f1);
    PutTwice(core, m, m);
    var core1 := Put(core, m);
    assert Effect(shared, core, me, CallEnter) == (shared, core1);
    CompleteMoves(shared, core1, me, 10);
    var r := Finish(m, me, 10);
    PutTwice(core, m, r);
    PutTwice(core, r, r);
    if core.hasLock {
      FinishStep(m, me, 10);
      NestedSkipsLock(m, me);
      EnterCounts(m.(f := f1.(pc := TestCounter, sr := false)), me, 9);
    } else {
      EnterLocks(m, me, 10);
      EnterCounts(Moved(shared.(holder := me), true, true, f1.(pc := TestCounter, sr := core.masked)), me, 5);
    }
  }

  lemma NestedSkipsLock(m: Moved, me: nat)
    requires m.f.pc.ReadFlag? && m.hasLock
    ensures Move(m.shared, m.masked, m.hasLock, m.f, me) == m.(f := m.f.(pc := TestCounter, sr := false))
  {
  }

  /** Exit up to the test of whether it is the outermost one. */
  lemma ExitCounts(m: Moved, me: nat, n: nat)
    requires m.f.pc.CheckCounter? && m.shared.counter > 0 && m.f.depth > 0 && n >= 3
    ensures Finish(m, me, n)
            == Finish(m.(shared := m.shared.(counter := m.shared.counter - 1),
                         f := m.f.(pc := TestLast, depth := m.f.depth - 1, temp := m.shared.counter)), me, n - 3)
  {
    hide Finish;
    FinishStep(m, me, n);
    var m1 := Move(m.shared, m.masked, m.hasLock, m.f, me);
    FinishStep(m1, me, n - 1);
    var m2 := Move(m1.shared, m1.masked, m1.hasLock, m1.f, me);
    FinishStep(m2, me, n - 2);
  }

  /** The outermost Exit: flag, lock, mask. */
  lemma ExitUnlocks(m: Moved, me: nat, n: nat)
    requires m.f.pc.TestLast? && m.shared.counter == 0 && n >= 5
    ensures Finish(m, me, n)
            == Moved(m.shared.(holder := FREE), m.shared.saved, false, m.f.(pc := Program, sr := m.shared.saved))
  {
    hide Finish;
    FinishStep(m, me, n);
    var m1 := Move(m.shared, m.masked, m.hasLock, m.f, me);
    FinishStep(m1, me, n - 1);
    var m2 := Move(m1.shared, m1.masked, m1.hasLock, m1.f, me);
    FinishStep(m2, me, n - 2);
    var m3 := Move(m2.shared, m2.masked, m2.hasLock, m2.f, me);
    FinishStep(m3, me, n - 3);
    var m4 := Move(m3.shared, m3.masked, m3.hasLock, m3.f, me);
    FinishStep(m4, me, n - 4);
    FinishEnd(Move(m4.shared, m4.masked, m4.hasLock, m4.f, me), me, n - 5);
  }

  /** Exit ends one section less deep; the outermost one writes the saved mask and frees the lock. */
  lemma ExitCompletes(shared: Shared, core: Core, me: nat)
    requires core.frames != [] && Consistent(shared, core, me) && shared.counter > 0
    ensures CanDo(shared, core, CallExit)
    ensures var (shared1, core1) := Effect(shared, core, me, CallExit);
      core1.frames != []
      && var (shared2, core2) := Complete(shared1, core1, me, 8);
      && shared2 == Shared(if shared.counter == 1 then FREE else me, shared.counter - 1, shared.saved)
      && core2.frames != [] && core2.masked == (if shared.counter == 1 then shared.saved else true)
      && Consistent(shared2, core2, me) && Running(core2).before == Running(core).before
      && core2.frames[..|core2.frames| - 1] == core.frames[..|core.frames| - 1]
  {
    hide Finish, Complete, Move;
    var f1 := Running(core).(pc := CheckCounter);
    var m := Moved(shared, core.masked, core.hasLock, f1);
    PutTwice(core, m, m);
    var core1 := Put(core, m);
    assert Effect(shared, core, me, CallExit) == (shared, core1);
    CompleteMoves(shared, core1, me, 8);
    var r := Finish(m, me, 8);
    PutTwice(core, m, r);
    PutTwice(core, r, r);
    ExitCounts(m, me, 8);
    var left := m.(shared := shared.(counter := shared.counter - 1),
                   f := f1.(pc := TestLast, depth := f1.depth - 1, temp := shared.counter));
    if shared.counter == 1 {
      ExitUnlocks(left, me, 5);
    } else {
      FinishStep(left, me, 5);
      NestedKeepsLock(left, me);
      FinishEnd(left.(f := left.f.(pc := Program)), me, 4);
    }
  }

  lemma NestedKeepsLock(m: Moved, me: nat)
    requires m.f.pc.TestLast? && m.shared.counter > 0
    ensures Move(m.shared, m.masked, m.hasLock, m.f, me) == m.(f := m.f.(pc := Program))
  {
  }

  /** An Enter and its Exit, undisturbed, leave lock, counter, mask and flag as they were. */
  lemma SectionRestores(shared: Shared, core: Core, me: nat)
    requires core.frames != [] && Consistent(shared, core, me)
    ensures var (shared1, core1) := Effect(shared, core, me, CallEnter);
      core1.frames != []
      && var (shared2, core2) := Complete(shared1, core1, me, 10);
      core2.frames != []
      && var (shared3, core3) := Effect(shared2, core2, me, CallExit);
      core3.frames != []
      && var (shared4, core4) := Complete(shared3, core3, me, 8);
      && shared4.holder == shared.holder && shared4.counter == shared.counter
      && (shared.counter > 0 ==> shared4 == shared)
      && core4.masked == core.masked && core4.hasLock == core.hasLock
      && core4.frames != [] && Consistent(shared4, core4, me)
      && core4.frames[..|core4.frames| - 1] == core.frames[..|core.frames| - 1]
  {
    hide Finish, Complete, Move, Effect;
    EnterCompletes(shared, core, me);
    var (shared1, core1) := Effect(shared, core, me, CallEnter);
    var (shared2, core2) := Complete(shared1, core1, me, 10);
    ExitCompletes(shared2, core2, me);
  }

  /** In every reachable state a core that has the lock, or finds it free, is one of these. */
  lemma ReachesConsistent(masks: seq<bool>, events: seq<Event>, s: State, c: nat)
    requires Reaches(masks, events, s) && c < |s.cores| && s.cores[c].frames != []
    requires Running(s.cores[c]).pc.Program? && (s.shared.holder == c || s.shared.holder == FREE)
    ensures Consistent(s.shared, s.cores[c], c)
  {
    ReachesInv(masks, events, s);
    assert CoreOk(s.cores[c], s.shared.holder == c, s.shared.counter, s.shared.saved);
  }

  /** Interrupts on: a handler comes, passes through a section and returns, and leaves no trace. */
  lemma HandlerLeavesNoTrace(shared: Shared, core: Core, me: nat)
    requires core.frames != [] && !core.masked && !core.hasLock && shared.holder == FREE && shared.counter == 0
    ensures CanDo(shared, core, Interrupt)
    ensures var core0 := Effect(shared, core, me, Interrupt).1;
      core0.frames != []
      && var (shared1, core1) := Effect(shared, core0, me, CallEnter);
      core1.frames != []
      && var (shared2, core2) := Complete(shared1, core1, me, 10);
      core2.frames != []
      && var (shared3, core3) := Effect(shared2, core2, me, CallExit);
      core3.frames != []
      && var (shared4, core4) := Complete(shared3, core3, me, 8);
      core4.frames != [] && CanDo(shared4, core4, Return) && Effect(shared4, core4, me, Return).1 == core
      && shared4.holder == FREE && shared4.counter == 0
  {
    hide Complete, Move;
    var core0 := Effect(shared, core, me, Interrupt).1;
    SectionRestores(shared, core0, me);
    assert core0.frames[..|core0.frames| - 1] == core.frames;
  }

  /** Only the outermost Enter notes the mask, and it notes the one that the core has then. */
  lemma OnlyOutermostEnterNotes(shared: Shared, core: Core, me: nat, action: Action, i: nat)
    requires i < |core.frames|
    ensures var core' := Effect(shared, core, me, action).1;
      i < |core'.frames| && core'.frames[i].before != core.frames[i].before ==>
        && action.CallEnter? && i == |core.frames| - 1 && core.frames[i].depth == 0
        && core'.frames[i].before == core.masked
  {
    if action.Proceed? {
      AdvanceKeepsNotes(shared, core, me);
      hide Advance;
    }
  }

  lemma AdvanceKeepsNotes(shared: Shared, core: Core, me: nat)
    requires core.frames != []
    ensures var core' := Advance(shared, core, me).1;
      && |core'.frames| == |core.frames|
      && forall i | 0 <= i < |core.frames| :: core'.frames[i].before == core.frames[i].before
  {
    MoveKeepsNote(shared, core.masked, core.hasLock, Running(core), me);
    hide Move;
    RunningReplaced(core, Move(shared, core.masked, core.hasLock, Running(core), me).f);
  }

  lemma MoveKeepsNote(shared: Shared, masked: bool, hasLock: bool, f: Frame, me: nat)
    ensures Move(shared, masked, hasLock, f, me).f.before == f.before
  {
  }
}
