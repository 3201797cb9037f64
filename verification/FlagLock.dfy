/** The global flags word and the spin lock inside it.

    Bit 28 of the word is the lock; the other bits are changed by plain read-modify-write while it is
    held.  Any number of threads run LdkInitialize, LdkPrepareForTermination and LdkTerminate, one
    atomic step at a time: a plain update is a read step and a later write step of the whole word. */
module FlagLock {

  /** A word, given by the positions of its one bits. */
  type Word = set<nat>

  datatype Flag = SafeMode | Locked | Shutdown | Initialized

  function Bit(f: Flag): nat {
    match f
    case SafeMode => 0
    case Locked => 28
    case Shutdown => 30
    case Initialized => 31
  }

  predicate On(w: Word, f: Flag) { Bit(f) in w }

  function Set(w: Word, f: Flag): Word { w + {Bit(f)} }

  function Clear(w: Word, f: Flag): Word { w - {Bit(f)} }

  // ---------------------------------------------------------------- components

  /** What bring-up initializes and can fail at, in order; the last four belong to KERNEL32. */
  datatype Component =
    | HeapList | Peb | TebMap | Ntdll
    | ProcessHandles | ThreadpoolApiset | ThreadContexts | Nls

  const COUNT: nat := 8

  function All(): (r: seq<Component>)
    ensures |r| == COUNT
  {
    [HeapList, Peb, TebMap, Ntdll, ProcessHandles, ThreadpoolApiset, ThreadContexts, Nls]
  }

  /** What is up after the first `n` components came up. */
  function Up(n: nat): seq<Component>
    requires n <= COUNT
  {
    All()[..n]
  }

  /** Terminating a component that is not the last one brought up is an error that sticks. */
  function TakeDown(up: seq<Component>, c: Component): seq<Component> {
    if up != [] && up[|up| - 1] == c then up[..|up| - 1] else up + [c]
  }

  // ---------------------------------------------------------------- threads

  /** Where a thread is.  `seen` is the word a plain update has read and not yet written back. */
  datatype Pc =
    | Idle
    | InitSpin(safeMode: bool)
    | InitReadSafe
    | InitWriteSafe(seen: Word)
    | InitCheck
    | InitReadClear
    | InitWriteClear(seen: Word)
    | BringUp(next: nat)
    | Unwind(left: nat)
    | InitReadDone
    | InitWriteDone(seen: Word)
    | PrepareSpin(terminate: bool)
    | PrepareCheck(terminate: bool)
    | PrepareUnlock(terminate: bool)
    | TerminateSpin
    | TerminateCheck
    | TerminateReadShutdown
    | TerminateWriteShutdown(seen: Word)
    | TearDown(left: nat)
    | TerminateReadDone
    | TerminateWriteDone(seen: Word)
    | Unlock

  predicate Critical(pc: Pc) {
    !pc.Idle? && !pc.InitSpin? && !pc.PrepareSpin? && !pc.TerminateSpin?
  }

  predicate Writing(pc: Pc) {
    || pc.InitWriteSafe? || pc.InitWriteClear? || pc.InitWriteDone?
    || pc.TerminateWriteShutdown? || pc.TerminateWriteDone?
  }

  /** `ideal` is the word a machine without lost updates would hold: every update applied atomically
      when it is written.  `owner` remembers whose test-and-set found the bit clear. */
  datatype State = State(word: Word, up: seq<Component>, pcs: seq<Pc>, ideal: Word, owner: Owner)

  datatype Owner = Nobody | Thread(id: nat)

  /** What the outside decides: which call an idle thread makes, whether a component comes up. */
  datatype Choice = Initialize(safeMode: bool) | Prepare | Terminate | Go(success: bool)

  function Move(s: State, t: nat, pc: Pc): State
    requires t < |s.pcs|
  {
    s.(pcs := s.pcs[t := pc])
  }

  /** InterlockedBitTestAndSet: the bit is set either way, the caller proceeds if it was clear. */
  function TestAndSet(s: State, t: nat, entered: Pc): State
    requires t < |s.pcs|
  {
    if On(s.word, Locked) then s.(word := Set(s.word, Locked))
    else Move(s, t, entered).(word := Set(s.word, Locked), ideal := Set(s.ideal, Locked), owner := Thread(t))
  }

  /** InterlockedBitTestAndReset */
  function Reset(s: State, t: nat, after: Pc): State
    requires t < |s.pcs|
  {
    Move(s, t, after).(word := Clear(s.word, Locked), ideal := Clear(s.ideal, Locked), owner := Nobody)
  }

  /** The write half of `LdkGlobalFlags |= f`. */
  function WriteSet(s: State, t: nat, seen: Word, f: Flag, after: Pc): State
    requires t < |s.pcs|
  {
    Move(s, t, after).(word := Set(seen, f), ideal := Set(s.ideal, f))
  }

  /** The write half of `LdkGlobalFlags &= ~f`. */
  function WriteClear(s: State, t: nat, seen: Word, f: Flag, after: Pc): State
    requires t < |s.pcs|
  {
    Move(s, t, after).(word := Clear(seen, f), ideal := Clear(s.ideal, f))
  }

  /** One atomic step of thread `t`. */
  function Step(s: State, t: nat, c: Choice): State
    requires t < |s.pcs|
  {
    match s.pcs[t]
    case Idle =>
      (match c
       case Initialize(safeMode) => Move(s, t, InitSpin(safeMode))
       case Prepare => Move(s, t, PrepareSpin(false))
       case Terminate => Move(s, t, PrepareSpin(true))
       case Go(_) => s)
    case InitSpin(safeMode) => TestAndSet(s, t, if safeMode then InitReadSafe else InitCheck)
    case InitReadSafe => Move(s, t, InitWriteSafe(s.word))
    case InitWriteSafe(seen) => WriteSet(s, t, seen, SafeMode, InitCheck)
    case InitCheck => Move(s, t, if On(s.word, Initialized) then Unlock else InitReadClear)
    case InitReadClear => Move(s, t, InitWriteClear(s.word))
    case InitWriteClear(seen) => WriteClear(s, t, seen, Shutdown, BringUp(0))
    case BringUp(next) =>
      if next >= COUNT then Move(s, t, InitReadDone)
      else if c.Go? && c.success then Move(s, t, BringUp(next + 1)).(up := s.up + [All()[next]])
      else Move(s, t, Unwind(next))
    case Unwind(left) =>
      if left == 0 || left > COUNT then Move(s, t, Unlock)
      else Move(s, t, Unwind(left - 1)).(up := TakeDown(s.up, All()[left - 1]))
    case InitReadDone => Move(s, t, InitWriteDone(s.word))
    case InitWriteDone(seen) => WriteSet(s, t, seen, Initialized, Unlock)
    case PrepareSpin(terminate) => TestAndSet(s, t, PrepareCheck(terminate))
    // Waiting for the threads of the runtime, when initialized, takes place after the unlock.
    case PrepareCheck(terminate) => Move(s, t, PrepareUnlock(terminate))
    case PrepareUnlock(terminate) => Reset(s, t, if terminate then TerminateSpin else Idle)
    case TerminateSpin => TestAndSet(s, t, TerminateCheck)
    case TerminateCheck => Move(s, t, if On(s.word, Initialized) then TerminateReadShutdown else Unlock)
    case TerminateReadShutdown => Move(s, t, TerminateWriteShutdown(s.word))
    case TerminateWriteShutdown(seen) => WriteSet(s, t, seen, Shutdown, TearDown(COUNT))
    case TearDown(left) =>
      if left == 0 || left > COUNT then Move(s, t, TerminateReadDone)
      else Move(s, t, TearDown(left - 1)).(up := TakeDown(s.up, All()[left - 1]))
    case TerminateReadDone => Move(s, t, TerminateWriteDone(s.word))
    case TerminateWriteDone(seen) => WriteClear(s, t, seen, Initialized, Unlock)
    case Unlock => Reset(s, t, Idle)
  }

  datatype Turn = Turn(thread: nat, choice: Choice)

  /** A run: at every turn some thread takes one step. */
  function Run(s: State, turns: seq<Turn>): State
  {
    if turns == [] then s
    else
      var before := Run(s, turns[..|turns| - 1]);
      var turn := turns[|turns| - 1];
      if turn.thread < |before.pcs| then Step(before, turn.thread, turn.choice) else before
  }

  function Start(threads: nat): State {
    State({}, [], seq(threads, _ => Idle), {}, Nobody)
  }

  // ---------------------------------------------------------------- the invariant

  /** What holds whenever the lock is free. */
  predicate Settled(word: Word, up: seq<Component>) {
    && (up == [] || up == All())
    && (On(word, Initialized) <==> up == All())
    && (On(word, Initialized) ==> !On(word, Shutdown))
  }

  /** What holds while the owner is at `pc`. */
  predicate Phase(pc: Pc, word: Word, up: seq<Component>) {
    (Writing(pc) ==> pc.seen == word) &&
    match pc
    case InitReadClear => up == [] && !On(word, Initialized)
    case InitWriteClear(_) => up == [] && !On(word, Initialized)
    case BringUp(next) => next <= COUNT && up == Up(next) && !On(word, Initialized) && !On(word, Shutdown)
    case Unwind(left) => left <= COUNT && up == Up(left) && !On(word, Initialized)
    case InitReadDone => up == All() && !On(word, Initialized) && !On(word, Shutdown)
    case InitWriteDone(_) => up == All() && !On(word, Initialized) && !On(word, Shutdown)
    case TerminateReadShutdown => up == All() && On(word, Initialized)
    case TerminateWriteShutdown(_) => up == All() && On(word, Initialized)
    case TearDown(left) => left <= COUNT && up == Up(left) && On(word, Initialized)
    case TerminateReadDone => up == [] && On(word, Initialized)
    case TerminateWriteDone(_) => up == [] && On(word, Initialized)
    case _ => Settled(word, up)
  }

  ghost predicate Inv(s: State) {
    && s.word == s.ideal
    && (On(s.word, Locked) <==> s.owner != Nobody)
    && (s.owner.Thread? ==> s.owner.id < |s.pcs| && Phase(s.pcs[s.owner.id], s.word, s.up))
    && (s.owner == Nobody ==> Settled(s.word, s.up))
    && (forall i :: 0 <= i < |s.pcs| ==> (Critical(s.pcs[i]) <==> s.owner == Thread(i)))
  }

  /** The facts about the word that a step of the owner needs, whichever flag it changes. */
  lemma Bits(w: Word)
    ensures forall f, g :: On(Set(w, f), g) <==> f == g || On(w, g)
    ensures forall f, g :: On(Clear(w, f), g) <==> f != g && On(w, g)
    ensures forall f :: !On(Clear(w, f), f) && On(Set(w, f), f)
    ensures On(w, Locked) ==> Set(w, Locked) == w
  {
    forall f, g ensures On(Clear(w, f), g) <==> f != g && On(w, g) {
      assert Bit(f) == Bit(g) <==> f == g;
    }
    forall f, g ensures On(Set(w, f), g) <==> f == g || On(w, g) {
      assert Bit(f) == Bit(g) <==> f == g;
    }
  }

  lemma AllOrNothing()
    ensures Up(0) == [] && Up(COUNT) == All()
  {
  }

  lemma OneMore(n: nat)
    requires n < COUNT
    ensures Up(n) + [All()[n]] == Up(n + 1)
    ensures TakeDown(Up(n + 1), All()[n]) == Up(n)
  {
  }

  /** A thread outside the lock: it calls, or its test-and-set is tried. */
  lemma OutsideStep(s: State, t: nat, c: Choice)
    requires Inv(s) && t < |s.pcs| && !Critical(s.pcs[t])
    ensures Inv(Step(s, t, c))
  {
    hide On, Set, Clear, All;
    Bits(s.word);
  }

  /** The owner stays inside and changes the word, or what is up, in step with its position. */
  lemma OwnerMoves(s: State, t: nat, pc: Pc, word: Word, up: seq<Component>)
    requires Inv(s) && s.owner == Thread(t)
    requires Critical(pc) && On(word, Locked) && Phase(pc, word, up)
    ensures Inv(s.(pcs := s.pcs[t := pc], word := word, ideal := word, up := up))
  {
    hide On, Phase, Settled;
  }

  /** The owner reads the word, or tests a flag in it. */
  lemma ReadStep(s: State, t: nat, c: Choice)
    requires Inv(s) && t < |s.pcs| && Critical(s.pcs[t]) && !Writing(s.pcs[t])
    requires !s.pcs[t].BringUp? && !s.pcs[t].Unwind? && !s.pcs[t].TearDown?
    requires !s.pcs[t].PrepareUnlock? && !s.pcs[t].Unlock?
    ensures Inv(Step(s, t, c))
  {
    hide On, Set, Clear, All, Inv;
    var pc := Step(s, t, c).pcs[t];
    OwnerFacts(s, t);
    OwnerMoves(s, t, pc, s.word, s.up);
  }

  lemma OwnerFacts(s: State, t: nat)
    requires Inv(s) && t < |s.pcs| && Critical(s.pcs[t])
    ensures s.owner == Thread(t) && s.word == s.ideal && On(s.word, Locked) && Phase(s.pcs[t], s.word, s.up)
  {
  }

  /** The owner writes a flag. */
  lemma WriteStep(s: State, t: nat, c: Choice)
    requires Inv(s) && t < |s.pcs| && Writing(s.pcs[t])
    ensures Inv(Step(s, t, c))
  {
    hide On, Set, Clear, Up, All, Inv;
    OwnerFacts(s, t);
    Bits(s.word);
    AllOrNothing();
    var s' := Step(s, t, c);
    OwnerMoves(s, t, s'.pcs[t], s'.word, s'.up);
  }

  /** The owner takes a component up or down: the next one in order goes up behind those that are up, and
      only the last of them goes down. */
  lemma ComponentStep(s: State, t: nat, c: Choice)
    requires Inv(s) && t < |s.pcs| && (s.pcs[t].BringUp? || s.pcs[t].Unwind? || s.pcs[t].TearDown?)
    ensures Inv(Step(s, t, c))
    ensures s.pcs[t].BringUp? ==>
              && s.pcs[t].next <= COUNT && s.up == Up(s.pcs[t].next)
              && (s.pcs[t].next < COUNT ==>
                  Step(s, t, c).up == if c.Go? && c.success then Up(s.pcs[t].next + 1) else s.up)
    ensures s.pcs[t].Unwind? || s.pcs[t].TearDown? ==>
              && s.pcs[t].left <= COUNT && s.up == Up(s.pcs[t].left)
              && Step(s, t, c).up == Up(if s.pcs[t].left > 0 then s.pcs[t].left - 1 else 0)
  {
    hide On, Set, Clear, TakeDown, Up, All, Inv;
    OwnerFacts(s, t);
    AllOrNothing();
    match s.pcs[t] {
      case BringUp(next) => if next < COUNT { OneMore(next); }
      case Unwind(left) => if left > 0 { OneMore(left - 1); }
      case TearDown(left) => if left > 0 { OneMore(left - 1); }
    }
    var s' := Step(s, t, c);
    OwnerMoves(s, t, s'.pcs[t], s'.word, s'.up);
  }

  /** The owner lets go. */
  lemma UnlockStep(s: State, t: nat, c: Choice)
    requires Inv(s) && t < |s.pcs| && (s.pcs[t].PrepareUnlock? || s.pcs[t].Unlock?)
    ensures Inv(Step(s, t, c))
  {
    hide On, Set, Clear, All;
    assert Critical(s.pcs[t]);
    Bits(s.word);
  }

  lemma StepKeepsInv(s: State, t: nat, c: Choice)
    requires Inv(s) && t < |s.pcs|
    ensures Inv(Step(s, t, c))
  {
    hide Inv, Step;
    var pc := s.pcs[t];
    if !Critical(pc) {
      OutsideStep(s, t, c);
    } else if Writing(pc) {
      WriteStep(s, t, c);
    } else if pc.BringUp? || pc.Unwind? || pc.TearDown? {
      ComponentStep(s, t, c);
    } else if pc.PrepareUnlock? || pc.Unlock? {
      UnlockStep(s, t, c);
    } else {
      ReadStep(s, t, c);
    }
  }

  lemma {:induction false} RunKeepsInv(threads: nat, turns: seq<Turn>)
    ensures Inv(Run(Start(threads), turns))
  {
    if turns == [] {
      assert On({}, Locked) == false && On({}, Initialized) == false;
    } else {
      var init := turns[..|turns| - 1];
      RunKeepsInv(threads, init);
      var before := Run(Start(threads), init);
      var turn := turns[|turns| - 1];
      if turn.thread < |before.pcs| {
        StepKeepsInv(before, turn.thread, turn.choice);
      }
    }
  }

  // ---------------------------------------------------------------- main results

  /** At most one thread is between lock and unlock, and the lock bit is set exactly while one is. */
  lemma MutualExclusion(threads: nat, turns: seq<Turn>, i: nat, j: nat)
    ensures var s := Run(Start(threads), turns);
            && (i < |s.pcs| && j < |s.pcs| && Critical(s.pcs[i]) && Critical(s.pcs[j]) ==> i == j)
            && (On(s.word, Locked) <==> exists k :: 0 <= k < |s.pcs| && Critical(s.pcs[k]))
  {
    RunKeepsInv(threads, turns);
    var s := Run(Start(threads), turns);
    if s.owner.Thread? {
      assert Critical(s.pcs[s.owner.id]);
    }
  }

  /** No plain update is lost: the word is always what atomic updates would have made it. */
  lemma NoUpdateIsLost(threads: nat, turns: seq<Turn>)
    ensures Run(Start(threads), turns).word == Run(Start(threads), turns).ideal
  {
    RunKeepsInv(threads, turns);
  }

  /** A spinning thread that finds the lock taken leaves the word as it was. */
  lemma SpinningIsHarmless(threads: nat, turns: seq<Turn>, t: nat, c: Choice)
    ensures var s := Run(Start(threads), turns);
            t < |s.pcs| && On(s.word, Locked) && !Critical(s.pcs[t]) ==> Step(s, t, c).word == s.word
  {
    RunKeepsInv(threads, turns);
    Bits(Run(Start(threads), turns).word);
  }

  /** With the lock free, INITIALIZED is set if and only if every component is up; otherwise none is,
      a failed bring-up having terminated in reverse order what had come up. */
  lemma FreeLockMeansSettled(threads: nat, turns: seq<Turn>)
    ensures var s := Run(Start(threads), turns);
            !On(s.word, Locked) ==>
              && (On(s.word, Initialized) <==> s.up == All())
              && (!On(s.word, Initialized) <==> s.up == [])
              && (On(s.word, Initialized) ==> !On(s.word, Shutdown))
  {
    RunKeepsInv(threads, turns);
  }

  // ---------------------------------------------------------------- whole calls

  /** From turn `from` on, thread `t` is within the call it has begun. */
  ghost predicate Within(s: State, turns: seq<Turn>, t: nat, from: nat) {
    forall k :: from <= k < |turns| ==> t < |Run(s, turns[..k]).pcs| && !Run(s, turns[..k]).pcs[t].Idle?
  }

  /** A component that thread `t` brings up fails at turn `k`. */
  ghost predicate FailsAt(s: State, turns: seq<Turn>, t: nat, k: nat) {
    && k < |turns| && turns[k].thread == t && t < |Run(s, turns[..k]).pcs|
    && ComponentFails(Run(s, turns[..k]).pcs[t], turns[k].choice)
  }

  predicate ComponentFails(pc: Pc, c: Choice) {
    pc.BringUp? && pc.next < COUNT && c != Go(true)
  }

  lemma RunNext(s: State, turns: seq<Turn>, k: nat)
    requires k < |turns|
    ensures var before, turn := Run(s, turns[..k]), turns[k];
            Run(s, turns[..k + 1]) ==
            if turn.thread < |before.pcs| then Step(before, turn.thread, turn.choice) else before
  {
    assert turns[..k + 1][..k] == turns[..k];
  }

  /** A step of another thread does not reach into the lock. */
  lemma OthersStayOut(s: State, t: nat, u: nat, c: Choice)
    requires Inv(s) && t < |s.pcs| && u < |s.pcs| && u != t
    ensures Step(s, u, c).pcs[t] == s.pcs[t] && |Step(s, u, c).pcs| == |s.pcs|
    ensures Critical(s.pcs[t]) ==> Step(s, u, c).word == s.word && Step(s, u, c).up == s.up
  {
    hide Phase, Settled, Set, Clear, On;
    Bits(s.word);
  }

  predicate Marked(word: Word, safeMode: bool) {
    safeMode ==> On(word, SafeMode)
  }

  /** Where LdkInitialize is, when so far a component has or has not failed. */
  ghost predicate Initializing(s: State, t: nat, safeMode: bool, failed: bool)
    requires t < |s.pcs|
  {
    match s.pcs[t]
    case InitSpin(safe) => !failed && safe == safeMode
    case InitReadSafe => !failed && safeMode
    case InitWriteSafe(_) => !failed && safeMode
    case InitCheck => !failed && Marked(s.word, safeMode)
    case InitReadClear => !failed && Marked(s.word, safeMode)
    case InitWriteClear(_) => !failed && Marked(s.word, safeMode)
    case BringUp(_) => !failed && Marked(s.word, safeMode)
    case InitReadDone => !failed && Marked(s.word, safeMode)
    case InitWriteDone(_) => !failed && Marked(s.word, safeMode)
    case Unwind(_) => failed && Marked(s.word, safeMode) && !On(s.word, Shutdown)
    case Unlock => (failed <==> !On(s.word, Initialized)) && Marked(s.word, safeMode) && !On(s.word, Shutdown)
    case _ => false
  }

  lemma InitializingStep(s: State, t: nat, c: Choice, safeMode: bool, failed: bool)
    requires Inv(s) && t < |s.pcs| && Initializing(s, t, safeMode, failed)
    requires !Step(s, t, c).pcs[t].Idle?
    ensures Initializing(Step(s, t, c), t, safeMode, failed || ComponentFails(s.pcs[t], c))
  {
    hide Set, Clear, On, TakeDown, Up, All;
    Bits(s.word);
    AllOrNothing();
    if Critical(s.pcs[t]) {
      OwnerFacts(s, t);
    }
  }

  lemma {:induction false} InitializingUpTo(s: State, turns: seq<Turn>, t: nat, safeMode: bool, k: nat)
    requires Inv(s) && t < |s.pcs| && s.pcs[t].Idle? && 1 <= k < |turns|
    requires turns[0] == Turn(t, Initialize(safeMode)) && Within(s, turns, t, 1)
    ensures var s' := Run(s, turns[..k]);
            && Inv(s') && t < |s'.pcs|
            && Initializing(s', t, safeMode, exists j: nat :: j < k && FailsAt(s, turns, t, j))
  {
    hide Inv, Step, Initializing, ComponentFails, Run;
    RunNext(s, turns, k - 1);
    if k == 1 {
      CallBegins(s, turns, t);
    } else {
      var before, turn := Run(s, turns[..k - 1]), turns[k - 1];
      InitializingUpTo(s, turns, t, safeMode, k - 1);
      NextTurn(before, t, turn);
      var failed := exists j: nat :: j < k - 1 && FailsAt(s, turns, t, j);
      assert FailsAt(s, turns, t, k - 1) <==> turn.thread == t && ComponentFails(before.pcs[t], turn.choice);
      assert (exists j: nat :: j < k && FailsAt(s, turns, t, j)) <==> failed || FailsAt(s, turns, t, k - 1);
      if turn.thread == t {
        InitializingStep(before, t, turn.choice, safeMode, failed);
      } else if turn.thread < |before.pcs| {
        OthersKeepInitializing(before, t, turn.thread, turn.choice, safeMode, failed);
      }
    }
  }

  lemma OthersKeepInitializing(s: State, t: nat, u: nat, c: Choice, safeMode: bool, failed: bool)
    requires Inv(s) && t < |s.pcs| && u < |s.pcs| && u != t && Initializing(s, t, safeMode, failed)
    ensures t < |Step(s, u, c).pcs| && Initializing(Step(s, u, c), t, safeMode, failed)
  {
    hide Step, Inv;
    OthersStayOut(s, t, u, c);
  }

  lemma CallBegins(s: State, turns: seq<Turn>, t: nat)
    requires Inv(s) && t < |s.pcs| && s.pcs[t].Idle? && |turns| > 1 && turns[0].thread == t
    ensures Run(s, turns[..0]) == s && !FailsAt(s, turns, t, 0)
    ensures var s' := Run(s, turns[..1]);
            && Inv(s') && |s'.pcs| == |s.pcs|
            && (turns[0].choice.Initialize? ==> Initializing(s', t, turns[0].choice.safeMode, false))
            && (turns[0].choice.Terminate? ==> Terminating(s', t))
            && (turns[0].choice.Prepare? ==> s'.pcs[t] == PrepareSpin(false))
  {
    hide Inv;
    RunNext(s, turns, 0);
    StepKeepsInv(s, t, turns[0].choice);
  }

  lemma NextTurn(s: State, t: nat, turn: Turn)
    requires Inv(s) && t < |s.pcs|
    ensures turn.thread < |s.pcs| ==> Inv(Step(s, turn.thread, turn.choice))
                                      && |Step(s, turn.thread, turn.choice).pcs| == |s.pcs|
  {
    hide Inv;
    if turn.thread < |s.pcs| {
      StepKeepsInv(s, turn.thread, turn.choice);
    }
  }

  /** LdkInitialize, from the call to the return, in the middle of any run: with no component failing it leaves
      everything up and INITIALIZED on, with a failing one everything down and INITIALIZED off. */
  lemma InitializeCompletes(s: State, turns: seq<Turn>, t: nat, safeMode: bool)
    requires Inv(s) && t < |s.pcs| && s.pcs[t].Idle? && |turns| > 1
    requires turns[0] == Turn(t, Initialize(safeMode)) && Within(s, turns, t, 1)
    requires t < |Run(s, turns).pcs| && Run(s, turns).pcs[t].Idle?
    ensures var s', failed := Run(s, turns), exists j: nat :: j < |turns| && FailsAt(s, turns, t, j);
            && (On(s'.word, Initialized) <==> !failed)
            && s'.up == (if failed then [] else All())
            && !On(s'.word, Shutdown) && (safeMode ==> On(s'.word, SafeMode))
  {
    hide Inv, Step, Run, ComponentFails;
    var k := |turns| - 1;
    InitializingUpTo(s, turns, t, safeMode, k);
    RunNext(s, turns, k);
    assert turns[..k + 1] == turns;
    var before := Run(s, turns[..k]);
    assert Within(s, turns, t, 1) ==> !before.pcs[t].Idle?;
    ReturnsFromUnlock(before, t, turns[k]);
    assert FailsAt(s, turns, t, k) ==> ComponentFails(before.pcs[t], turns[k].choice);
    EndOfInitialize(before, t, turns[k].choice, safeMode, exists j: nat :: j < k && FailsAt(s, turns, t, j));
    assert !FailsAt(s, turns, t, k) by { NoFailureAtUnlock(turns[k].choice); }
  }

  lemma NoFailureAtUnlock(c: Choice)
    ensures !ComponentFails(Unlock, c) && !ComponentFails(PrepareUnlock(false), c)
  {
  }

  /** A call returns by unlocking. */
  lemma ReturnsFromUnlock(s: State, t: nat, turn: Turn)
    requires Inv(s) && t < |s.pcs| && !s.pcs[t].Idle?
    requires var s' := if turn.thread < |s.pcs| then Step(s, turn.thread, turn.choice) else s;
             t < |s'.pcs| && s'.pcs[t].Idle?
    ensures turn.thread == t && (s.pcs[t].Unlock? || s.pcs[t] == PrepareUnlock(false))
  {
    hide Inv;
    if turn.thread < |s.pcs| && turn.thread != t {
      OthersStayOut(s, t, turn.thread, turn.choice);
    }
  }

  lemma EndOfInitialize(s: State, t: nat, c: Choice, safeMode: bool, failed: bool)
    requires Inv(s) && t < |s.pcs| && Initializing(s, t, safeMode, failed)
    requires s.pcs[t].Unlock? || s.pcs[t] == PrepareUnlock(false)
    ensures var s' := Step(s, t, c);
            && s.pcs[t].Unlock?
            && (On(s'.word, Initialized) <==> !failed)
            && s'.up == (if failed then [] else All())
            && !On(s'.word, Shutdown) && (safeMode ==> On(s'.word, SafeMode))
  {
    hide On, Set, Clear, All;
    OwnerFacts(s, t);
    Bits(s.word);
  }

  /** Where LdkTerminate is. */
  ghost predicate Terminating(s: State, t: nat)
    requires t < |s.pcs|
  {
    match s.pcs[t]
    case PrepareSpin(terminate) => terminate
    case PrepareCheck(terminate) => terminate
    case PrepareUnlock(terminate) => terminate
    case TerminateSpin => true
    case TerminateCheck => true
    case TerminateReadShutdown => true
    case TerminateWriteShutdown(_) => true
    case TearDown(_) => true
    case TerminateReadDone => true
    case TerminateWriteDone(_) => true
    case Unlock => !On(s.word, Initialized)
    case _ => false
  }

  lemma TerminatingStep(s: State, t: nat, c: Choice)
    requires Inv(s) && t < |s.pcs| && Terminating(s, t) && !Step(s, t, c).pcs[t].Idle?
    ensures Terminating(Step(s, t, c), t)
  {
    hide Set, Clear, On, TakeDown, Up, All;
    Bits(s.word);
    if Critical(s.pcs[t]) {
      OwnerFacts(s, t);
    }
  }

  lemma {:induction false} TerminatingUpTo(s: State, turns: seq<Turn>, t: nat, k: nat)
    requires Inv(s) && t < |s.pcs| && s.pcs[t].Idle? && 1 <= k < |turns|
    requires turns[0] == Turn(t, Terminate) && Within(s, turns, t, 1)
    ensures var s' := Run(s, turns[..k]); Inv(s') && t < |s'.pcs| && Terminating(s', t)
  {
    hide Inv, Step, Terminating, Run;
    RunNext(s, turns, k - 1);
    if k == 1 {
      CallBegins(s, turns, t);
    } else {
      var before, turn := Run(s, turns[..k - 1]), turns[k - 1];
      TerminatingUpTo(s, turns, t, k - 1);
      NextTurn(before, t, turn);
      if turn.thread == t {
        TerminatingStep(before, t, turn.choice);
      } else if turn.thread < |before.pcs| {
        OthersKeepTerminating(before, t, turn.thread, turn.choice);
      }
    }
  }

  lemma OthersKeepTerminating(s: State, t: nat, u: nat, c: Choice)
    requires Inv(s) && t < |s.pcs| && u < |s.pcs| && u != t && Terminating(s, t)
    ensures t < |Step(s, u, c).pcs| && Terminating(Step(s, u, c), t)
  {
    hide Step, Inv;
    OthersStayOut(s, t, u, c);
  }

  /** LdkTerminate, from the call to the return, leaves everything down and INITIALIZED off. */
  lemma TerminateCompletes(s: State, turns: seq<Turn>, t: nat)
    requires Inv(s) && t < |s.pcs| && s.pcs[t].Idle? && |turns| > 1
    requires turns[0] == Turn(t, Terminate) && Within(s, turns, t, 1)
    requires t < |Run(s, turns).pcs| && Run(s, turns).pcs[t].Idle?
    ensures Run(s, turns).up == [] && !On(Run(s, turns).word, Initialized)
  {
    hide Inv, Step, Run;
    var k := |turns| - 1;
    TerminatingUpTo(s, turns, t, k);
    RunNext(s, turns, k);
    assert turns[..k + 1] == turns;
    assert !Run(s, turns[..k]).pcs[t].Idle?;
    ReturnsFromUnlock(Run(s, turns[..k]), t, turns[k]);
    EndOfTerminate(Run(s, turns[..k]), t, turns[k].choice);
  }

  lemma EndOfTerminate(s: State, t: nat, c: Choice)
    requires Inv(s) && t < |s.pcs| && Terminating(s, t)
    requires s.pcs[t].Unlock? || s.pcs[t] == PrepareUnlock(false)
    ensures Step(s, t, c).up == [] && !On(Step(s, t, c).word, Initialized)
  {
    hide On, Set, Clear, All;
    OwnerFacts(s, t);
    Bits(s.word);
  }

  // ---------------------------------------------------------------- what a call finds

  /** At turn 0 thread `t` takes the lock, and it is inside until the last turn at least. */
  ghost predicate Inside(s: State, turns: seq<Turn>, t: nat) {
    && turns != [] && turns[0].thread == t
    && forall k :: 1 <= k < |turns| ==> t < |Run(s, turns[..k]).pcs| && Critical(Run(s, turns[..k]).pcs[t])
  }

  /** With everything up LdkInitialize only tests, with nothing up LdkTerminate does. */
  ghost predicate OnlyTests(s: State, t: nat, was: State)
    requires t < |s.pcs|
  {
    && s.up == was.up
    && (forall f :: f != Locked && f != SafeMode ==> (On(s.word, f) <==> On(was.word, f)))
    && match s.pcs[t]
       case InitReadSafe => On(was.word, Initialized)
       case InitWriteSafe(_) => On(was.word, Initialized)
       case InitCheck => On(was.word, Initialized)
       case TerminateCheck => !On(was.word, Initialized)
       case Unlock => true
       case _ => false
  }

  lemma TestStep(s: State, t: nat, c: Choice, was: State)
    requires Inv(s) && t < |s.pcs| && Critical(s.pcs[t]) && OnlyTests(s, t, was)
    ensures var s' := Step(s, t, c);
            OnlyTests(s', t, was) || (s'.pcs[t].Idle? && s'.up == was.up
              && forall f :: f != Locked && f != SafeMode ==> (On(s'.word, f) <==> On(was.word, f)))
  {
    hide Set, Clear, On, TakeDown, Up, All;
    Bits(s.word);
    OwnerFacts(s, t);
  }

  lemma OthersKeepTests(s: State, t: nat, u: nat, c: Choice, was: State)
    requires Inv(s) && t < |s.pcs| && u < |s.pcs| && u != t && Critical(s.pcs[t]) && OnlyTests(s, t, was)
    ensures t < |Step(s, u, c).pcs| && OnlyTests(Step(s, u, c), t, was)
  {
    hide Step, Inv, On;
    OthersStayOut(s, t, u, c);
  }

  lemma {:induction false} TestsUpTo(s: State, turns: seq<Turn>, t: nat, k: nat)
    requires Inv(s) && t < |s.pcs| && !On(s.word, Locked) && Inside(s, turns, t) && 1 <= k < |turns|
    requires if On(s.word, Initialized) then s.pcs[t].InitSpin? else s.pcs[t].TerminateSpin?
    ensures var s' := Run(s, turns[..k]); Inv(s') && t < |s'.pcs| && OnlyTests(s', t, s)
  {
    hide Inv, Step, OnlyTests, Run, On;
    RunNext(s, turns, k - 1);
    if k == 1 {
      TakesTheLock(s, turns, t);
    } else {
      var before, turn := Run(s, turns[..k - 1]), turns[k - 1];
      TestsUpTo(s, turns, t, k - 1);
      NextTurn(before, t, turn);
      if turn.thread == t {
        TestStep(before, t, turn.choice, s);
      } else if turn.thread < |before.pcs| {
        OthersKeepTests(before, t, turn.thread, turn.choice, s);
      }
    }
  }

  lemma TakesTheLock(s: State, turns: seq<Turn>, t: nat)
    requires Inv(s) && t < |s.pcs| && !On(s.word, Locked) && turns != [] && turns[0].thread == t
    ensures Run(s, turns[..0]) == s
    ensures var s' := Run(s, turns[..1]);
            && Inv(s') && |s'.pcs| == |s.pcs|
            && (s.pcs[t].InitSpin? && On(s.word, Initialized) ==> OnlyTests(s', t, s))
            && (s.pcs[t].TerminateSpin? && !On(s.word, Initialized) ==> OnlyTests(s', t, s))
            && (s.pcs[t].TerminateSpin? && On(s.word, Initialized) ==> ShuttingDown(s', t))
  {
    hide Inv, On, OnlyTests, ShuttingDown, Step;
    RunNext(s, turns, 0);
    StepKeepsInv(s, t, turns[0].choice);
    if s.pcs[t].InitSpin? || s.pcs[t].TerminateSpin? {
      FirstStepInside(s, t, turns[0].choice);
    }
    assert |Step(s, t, turns[0].choice).pcs| == |s.pcs| by { SameThreads(s, t, turns[0].choice); }
  }

  lemma SameThreads(s: State, t: nat, c: Choice)
    requires t < |s.pcs|
    ensures |Step(s, t, c).pcs| == |s.pcs|
  {
  }

  lemma FirstStepInside(s: State, t: nat, c: Choice)
    requires t < |s.pcs| && !On(s.word, Locked) && (s.pcs[t].InitSpin? || s.pcs[t].TerminateSpin?)
    ensures s.pcs[t].InitSpin? && On(s.word, Initialized) ==> OnlyTests(Step(s, t, c), t, s)
    ensures s.pcs[t].TerminateSpin? && !On(s.word, Initialized) ==> OnlyTests(Step(s, t, c), t, s)
    ensures s.pcs[t].TerminateSpin? && On(s.word, Initialized) ==> ShuttingDown(Step(s, t, c), t)
  {
    hide On, Set;
    Bits(s.word);
  }

  /** Whoever initializes what is up already, or terminates what is down, changes nothing but SAFE_MODE, neither
      meanwhile nor in the end. */
  lemma NothingToDo(s: State, turns: seq<Turn>, t: nat, k: nat)
    requires Inv(s) && t < |s.pcs| && !On(s.word, Locked) && Inside(s, turns, t) && 1 <= k <= |turns|
    requires if On(s.word, Initialized) then s.pcs[t].InitSpin? else s.pcs[t].TerminateSpin?
    ensures var s' := Run(s, turns[..k]);
            s'.up == s.up && forall f :: f != Locked && f != SafeMode ==> (On(s'.word, f) <==> On(s.word, f))
  {
    hide Inv, Step, Run, On;
    if k < |turns| {
      TestsUpTo(s, turns, t, k);
    } else if k == 1 {
      RunNext(s, turns, 0);
      TakesTheLock(s, turns, t);
    } else {
      var before, turn := Run(s, turns[..k - 1]), turns[k - 1];
      TestsUpTo(s, turns, t, k - 1);
      RunNext(s, turns, k - 1);
      if turn.thread == t {
        TestStep(before, t, turn.choice, s);
      } else if turn.thread < |before.pcs| {
        OthersKeepTests(before, t, turn.thread, turn.choice, s);
      }
    }
  }

  /** LdkTerminate on something that is up. */
  ghost predicate ShuttingDown(s: State, t: nat)
    requires t < |s.pcs|
  {
    match s.pcs[t]
    case TerminateCheck => On(s.word, Initialized)
    case TerminateReadShutdown => true
    case TerminateWriteShutdown(_) => true
    case TearDown(_) => On(s.word, Shutdown)
    case TerminateReadDone => On(s.word, Shutdown)
    case TerminateWriteDone(_) => On(s.word, Shutdown)
    case Unlock => On(s.word, Shutdown)
    case _ => false
  }

  lemma ShutdownStep(s: State, t: nat, c: Choice)
    requires Inv(s) && t < |s.pcs| && Critical(s.pcs[t]) && ShuttingDown(s, t)
    ensures var s' := Step(s, t, c); ShuttingDown(s', t) || (s'.pcs[t].Idle? && On(s'.word, Shutdown))
  {
    hide Set, Clear, On, TakeDown, Up, All;
    Bits(s.word);
    OwnerFacts(s, t);
  }

  lemma {:induction false} ShutdownUpTo(s: State, turns: seq<Turn>, t: nat, k: nat)
    requires Inv(s) && t < |s.pcs| && !On(s.word, Locked) && Inside(s, turns, t) && 1 <= k < |turns|
    requires s.pcs[t].TerminateSpin? && On(s.word, Initialized)
    ensures var s' := Run(s, turns[..k]); Inv(s') && t < |s'.pcs| && ShuttingDown(s', t)
  {
    hide Inv, Step, ShuttingDown, Run, On;
    RunNext(s, turns, k - 1);
    if k == 1 {
      TakesTheLock(s, turns, t);
    } else {
      var before, turn := Run(s, turns[..k - 1]), turns[k - 1];
      ShutdownUpTo(s, turns, t, k - 1);
      NextTurn(before, t, turn);
      if turn.thread == t {
        ShutdownStep(before, t, turn.choice);
      } else if turn.thread < |before.pcs| {
        OthersKeepShutdown(before, t, turn.thread, turn.choice);
      }
    }
  }

  lemma OthersKeepShutdown(s: State, t: nat, u: nat, c: Choice)
    requires Inv(s) && t < |s.pcs| && u < |s.pcs| && u != t && Critical(s.pcs[t]) && ShuttingDown(s, t)
    ensures t < |Step(s, u, c).pcs| && ShuttingDown(Step(s, u, c), t)
  {
    hide Step, Inv;
    OthersStayOut(s, t, u, c);
  }

  /** Whoever finds everything up and takes it down leaves SHUTDOWN_IN_PROGRESS on. */
  lemma ShutdownIsMarked(s: State, turns: seq<Turn>, t: nat)
    requires Inv(s) && t < |s.pcs| && !On(s.word, Locked) && Inside(s, turns, t) && |turns| > 1
    requires s.pcs[t].TerminateSpin? && On(s.word, Initialized)
    requires t < |Run(s, turns).pcs| && Run(s, turns).pcs[t].Idle?
    ensures On(Run(s, turns).word, Shutdown)
  {
    hide Inv, Step, Run, On;
    var k := |turns| - 1;
    var before, turn := Run(s, turns[..k]), turns[k];
    ShutdownUpTo(s, turns, t, k);
    RunNext(s, turns, k);
    assert turns[..k + 1] == turns && Critical(before.pcs[t]);
    if turn.thread == t {
      ShutdownStep(before, t, turn.choice);
    } else if turn.thread < |before.pcs| {
      OthersKeepShutdown(before, t, turn.thread, turn.choice);
    }
  }

  /** LdkPrepareForTermination touches no flag and no component. */
  lemma PreparationChangesNothing(s: State, t: nat, c: Choice)
    requires Inv(s) && t < |s.pcs|
    requires s.pcs[t].PrepareSpin? || s.pcs[t].PrepareCheck? || s.pcs[t].PrepareUnlock?
    ensures Step(s, t, c).up == s.up
    ensures forall f :: f != Locked ==> (On(Step(s, t, c).word, f) <==> On(s.word, f))
  {
    hide On, Set, Clear, Phase, Settled;
    Bits(s.word);
  }

  // ---------------------------------------------------------------- every call comes to an end

  /** How many more steps a thread inside the lock takes at most. */
  function StepsLeft(pc: Pc): nat {
    match pc
    case InitReadSafe => 25
    case InitWriteSafe(_) => 24
    case InitCheck => 23
    case InitReadClear => 22
    case InitWriteClear(_) => 21
    case BringUp(next) => if next <= COUNT then 12 + (COUNT - next) else 12
    case Unwind(left) => if left <= COUNT then left + 2 else 2
    case InitReadDone => 3
    case InitWriteDone(_) => 2
    case PrepareCheck(_) => 2
    case PrepareUnlock(_) => 1
    case TerminateCheck => 15
    case TerminateReadShutdown => 14
    case TerminateWriteShutdown(_) => 13
    case TearDown(left) => if left <= COUNT then left + 4 else 4
    case TerminateReadDone => 3
    case TerminateWriteDone(_) => 2
    case Unlock => 1
    case _ => 0
  }

  lemma StepsRunOut(s: State, t: nat, c: Choice)
    requires Inv(s) && t < |s.pcs| && Critical(s.pcs[t])
    ensures t < |Step(s, t, c).pcs| && StepsLeft(Step(s, t, c).pcs[t]) < StepsLeft(s.pcs[t])
  {
    hide On, Set, Clear, TakeDown, Up, All;
    OwnerFacts(s, t);
  }

  /** How many of the turns are the thread's own. */
  function OwnTurns(turns: seq<Turn>, t: nat): nat {
    if turns == [] then 0
    else OwnTurns(turns[..|turns| - 1], t) + if turns[|turns| - 1].thread == t then 1 else 0
  }

  /** Nobody stays inside the lock for more than 25 steps of its own, whatever the others do. */
  lemma {:induction false} NobodyStaysInside(s: State, turns: seq<Turn>, t: nat)
    requires Inv(s) && t < |s.pcs|
    requires forall k :: 0 <= k < |turns| ==> t < |Run(s, turns[..k]).pcs| && Critical(Run(s, turns[..k]).pcs[t])
    ensures Inv(Run(s, turns)) && t < |Run(s, turns).pcs|
    ensures StepsLeft(Run(s, turns).pcs[t]) + OwnTurns(turns, t) <= StepsLeft(s.pcs[t]) <= 25
  {
    hide Inv, Step, Critical;
    if turns != [] {
      var k := |turns| - 1;
      var before, turn := Run(s, turns[..k]), turns[k];
      forall j | 0 <= j < k
        ensures turns[..k][..j] == turns[..j]
      {
      }
      NobodyStaysInside(s, turns[..k], t);
      NextTurn(before, t, turn);
      if turn.thread == t {
        StepsRunOut(before, t, turn.choice);
      } else if turn.thread < |before.pcs| {
        OthersStayOut(before, t, turn.thread, turn.choice);
      }
    }
  }

  /** A thread that wants the lock and finds it free gets it. */
  lemma FreeLockIsTaken(s: State, t: nat, c: Choice)
    requires t < |s.pcs| && !On(s.word, Locked) && !Critical(s.pcs[t]) && !s.pcs[t].Idle?
    ensures Critical(Step(s, t, c).pcs[t])
  {
  }
}
