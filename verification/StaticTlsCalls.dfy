/** What a whole call leaves behind in the machine of StaticTls: a thread that attaches has its block, a module
    that is loaded has its index, one that is unloaded has none, whatever other threads do meanwhile. */
module StaticTlsCalls {
  import opened Wrappers
  import opened StaticTls

  /** A block of no bytes is not allocated. */
  ghost predicate NeedsNone(s: State, index: nat) {
    index in s.owner && s.owner[index].Size() == 0
  }

  /** The allocation of a block fails. */
  ghost predicate Refuses(s: State, pc: Pc, c: Choice) {
    pc.Allocate? && pc.slot.index in s.owner && s.owner[pc.slot.index].Size() != 0 && c != Go(true)
  }

  /** Where LdkpInitializeStaticTlsForTeb is with this slot. */
  ghost predicate Installing(s: State, pc: Pc, slot: Slot, loads: bool) {
    match pc
    case Check(x, loading) => x == slot && loading == loads
    case Allocate(x, loading) => x == slot && loading == loads
    case Install(x, loading, made) => x == slot && loading == loads && (made.Some? || NeedsNone(s, slot.index))
    case Discard(_, index, loading) => index == slot.index && loading == loads && slot in s.slots
    case Finish(index, loading) => index == slot.index && loading == loads && (slot in s.slots || NeedsNone(s, index))
    case _ => false
  }

  /** Where a call is that has not ended. */
  ghost predicate Busy(s: State, pc: Pc, call: Choice, refused: bool) {
    match call
    case ThreadAttach(slot) => !refused && Installing(s, pc, slot, false)
    case LoadModule(index, template, teb) =>
      && index in s.owner && s.owner[index] == template
      && if refused then pc == ClearBit(index) else Installing(s, pc, Slot(teb, index), true)
    case ThreadDetach(slot) => pc == Exchange(slot) || (pc.FreeOne? && slot !in s.slots)
    case UnloadModule(index) =>
      (pc.Walk? && pc.index == index) || (pc.WalkFree? && pc.index == index) || pc == ClearBit(index)
    case _ => false
  }

  /** What a call leaves behind. */
  ghost predicate Ended(s: State, call: Choice, refused: bool) {
    match call
    case ThreadAttach(slot) => refused || slot in s.slots || NeedsNone(s, slot.index)
    case LoadModule(index, template, teb) =>
      if refused then index !in s.bits && index !in s.owner && index !in s.attached
      else
        && index in s.bits && index in s.attached && index in s.owner && s.owner[index] == template
        && (Slot(teb, index) in s.slots || template.Size() == 0)
    case ThreadDetach(slot) => slot !in s.slots
    case UnloadModule(index) =>
      index !in s.bits && index !in s.owner && index !in s.attached && forall x :: x in s.slots ==> x.index != index
    case _ => true
  }

  ghost predicate Possible(s: State, call: Choice) {
    match call
    case ThreadAttach(slot) => MayCall(s, slot)
    case LoadModule(index, _, teb) => MayLoad(s, index, teb)
    case ThreadDetach(slot) => MayCall(s, slot)
    case UnloadModule(index) => MayUnload(s, index)
    case _ => false
  }

  lemma CallBegins(s: State, t: nat, call: Choice)
    requires Inv(s) && t < |s.pcs| && s.pcs[t].Idle? && Possible(s, call)
    ensures !Step(s, t, call).pcs[t].Idle? && Busy(Step(s, t, call), Step(s, t, call).pcs[t], call, false)
  {
    hide Inv, Unused;
  }

  ghost predicate EndsOrGoesOn(s: State, t: nat, c: Choice, call: Choice, refused: bool)
    requires t < |s.pcs|
  {
    var s', refused' := Step(s, t, c), refused || Refuses(s, s.pcs[t], c);
    if NextPc(s, s.pcs[t], c).Idle? then Ended(s', call, refused')
    else Busy(s', NextPc(s, s.pcs[t], c), call, refused')
  }

  lemma OwnStep(s: State, t: nat, c: Choice, call: Choice, refused: bool)
    requires Inv(s) && t < |s.pcs| && Busy(s, s.pcs[t], call, refused)
    ensures EndsOrGoesOn(s, t, c, call, refused)
  {
    hide EndsOrGoesOn, Busy, Inv;
    match call {
      case ThreadAttach(slot) => AttachStep(s, t, c, slot, refused);
      case LoadModule(index, template, teb) => LoadStep(s, t, c, index, template, teb, refused);
      case ThreadDetach(slot) => DetachStep(s, t, c, slot, refused);
      case UnloadModule(index) => UnloadStep(s, t, c, index, refused);
      case _ => NoOtherCall(s, s.pcs[t], call, refused);
    }
  }

  lemma NoOtherCall(s: State, pc: Pc, call: Choice, refused: bool)
    requires call.NewTeb? || call.Go?
    ensures !Busy(s, pc, call, refused)
  {
  }

  lemma AttachStep(s: State, t: nat, c: Choice, slot: Slot, refused: bool)
    requires Inv(s) && t < |s.pcs| && Busy(s, s.pcs[t], ThreadAttach(slot), refused)
    ensures EndsOrGoesOn(s, t, c, ThreadAttach(slot), refused)
  {
    hide Inv, Unused;
    UsesOwned(s, t, slot.index);
  }

  lemma LoadStep(s: State, t: nat, c: Choice, index: nat, template: Template, teb: nat, refused: bool)
    requires Inv(s) && t < |s.pcs| && Busy(s, s.pcs[t], LoadModule(index, template, teb), refused)
    ensures EndsOrGoesOn(s, t, c, LoadModule(index, template, teb), refused)
  {
    hide Inv, Unused;
    UsesOwned(s, t, index);
  }

  lemma DetachStep(s: State, t: nat, c: Choice, slot: Slot, refused: bool)
    requires t < |s.pcs| && Busy(s, s.pcs[t], ThreadDetach(slot), refused)
    ensures EndsOrGoesOn(s, t, c, ThreadDetach(slot), refused)
  {
    hide Unused;
  }

  lemma UnloadStep(s: State, t: nat, c: Choice, index: nat, refused: bool)
    requires Inv(s) && t < |s.pcs| && Busy(s, s.pcs[t], UnloadModule(index), refused)
    ensures EndsOrGoesOn(s, t, c, UnloadModule(index), refused)
  {
    hide Inv, Unused;
    UsesOwned(s, t, index);
    if s.pcs[t] == ClearBit(index) {
      NothingStands(s, t, index);
    }
  }

  /** The index a call is about. */
  function Index(call: Choice): nat {
    match call
    case ThreadAttach(slot) => slot.index
    case LoadModule(index, _, _) => index
    case ThreadDetach(slot) => slot.index
    case UnloadModule(index) => index
    case _ => 0
  }

  lemma NothingStands(s: State, t: nat, index: nat)
    requires Inv(s) && t < |s.pcs| && s.pcs[t] == ClearBit(index)
    ensures forall x :: x in s.slots ==> x.index != index
  {
    hide Conserved, FreedOnce, Contents, Roles;
    forall x | x in s.slots
      ensures x.index != index
    {
      assert MayStand(s.pcs[t], x);
    }
  }

  // ---------------------------------------------------------------- other threads

  /** Another thread takes nothing away that a call relies on; the slot itself is up to `undisturbed`. */
  lemma OthersStep(s: State, t: nat, u: nat, c: Choice, call: Choice, refused: bool)
    requires Inv(s) && t < |s.pcs| && u < |s.pcs| && u != t && Busy(s, s.pcs[t], call, refused)
    requires SlotOf(call).Some? ==> (SlotOf(call).value in s.slots <==> SlotOf(call).value in Step(s, u, c).slots)
    ensures |Step(s, u, c).pcs| == |s.pcs| && Busy(Step(s, u, c), s.pcs[t], call, refused)
    ensures Step(s, u, c).pcs[t] == s.pcs[t]
  {
    hide Inv, Step;
    OthersStay(s, u, c);
    OwnedStays(s, t, u, c, Index(call));
  }

  function SlotOf(call: Choice): Option<Slot> {
    match call
    case ThreadAttach(slot) => Some(slot)
    case LoadModule(index, _, teb) => Some(Slot(teb, index))
    case ThreadDetach(slot) => Some(slot)
    case _ => None
  }

  lemma OwnedStays(s: State, t: nat, u: nat, c: Choice, n: nat)
    requires Inv(s) && t < |s.pcs| && u < |s.pcs| && u != t
    ensures Uses(s.pcs[t], n) || Unloads(s.pcs[t], n) ==>
              n in s.owner && n in Step(s, u, c).owner && Step(s, u, c).owner[n] == s.owner[n]
  {
    hide Inv, Step, Uses;
    UsesOwned(s, t, n);
    HandFacts(s, u);
    RoleFacts(s, u);
    BlocksStay(s, u, c);
    assert s.pcs[u] == ClearBit(n) ==> Alone(s.pcs[u], n);
  }

  // ---------------------------------------------------------------- whole calls

  /** From turn 1 on thread `t` is within its call, and nobody else fills or empties the slot it is about. */
  ghost predicate Undisturbed(s: State, turns: seq<Turn>, t: nat, call: Choice) {
    && (forall k :: 1 <= k < |turns| ==> t < |Run(s, turns[..k]).pcs| && !Run(s, turns[..k]).pcs[t].Idle?)
    && (forall k :: 0 <= k < |turns| && turns[k].thread != t ==> SlotStays(s, turns, k, call))
  }

  ghost predicate SlotStays(s: State, turns: seq<Turn>, k: nat, call: Choice)
    requires k < |turns|
  {
    SlotOf(call).Some? ==>
      (SlotOf(call).value in Run(s, turns[..k]).slots <==> SlotOf(call).value in Run(s, turns[..k + 1]).slots)
  }

  ghost predicate RefusedAt(s: State, turns: seq<Turn>, t: nat, k: nat) {
    && k < |turns| && turns[k].thread == t && t < |Run(s, turns[..k]).pcs|
    && Refuses(Run(s, turns[..k]), Run(s, turns[..k]).pcs[t], turns[k].choice)
  }

  lemma RunNext(s: State, turns: seq<Turn>, k: nat)
    requires k < |turns|
    ensures var before, turn := Run(s, turns[..k]), turns[k];
            Run(s, turns[..k + 1]) ==
            if turn.thread < |before.pcs| then Step(before, turn.thread, turn.choice) else before
  {
    assert turns[..k + 1][..k] == turns[..k];
  }

  /** One turn of anybody. */
  lemma NextTurn(s: State, turns: seq<Turn>, t: nat, call: Choice, k: nat, refused: bool)
    requires k < |turns| && Inv(Run(s, turns[..k])) && t < |Run(s, turns[..k]).pcs|
    requires Busy(Run(s, turns[..k]), Run(s, turns[..k]).pcs[t], call, refused)
    requires turns[k].thread != t ==> SlotStays(s, turns, k, call)
    ensures var s', refused' := Run(s, turns[..k + 1]), refused || RefusedAt(s, turns, t, k);
            && Inv(s') && t < |s'.pcs|
            && (turns[k].thread != t ==> s'.pcs[t] == Run(s, turns[..k]).pcs[t])
            && if turns[k].thread == t && s'.pcs[t].Idle? then Ended(s', call, refused')
               else Busy(s', s'.pcs[t], call, refused')
  {
    hide Inv, Run, Busy, Ended, NextPc, Effect, Refuses;
    var before, turn := Run(s, turns[..k]), turns[k];
    RunNext(s, turns, k);
    if turn.thread < |before.pcs| {
      StepKeepsInv(before, turn.thread, turn.choice);
      if turn.thread == t {
        OwnStep(before, t, turn.choice, call, refused);
      } else {
        OthersStep(before, t, turn.thread, turn.choice, call, refused);
      }
    }
  }

  lemma {:induction false} BusyUpTo(s: State, turns: seq<Turn>, t: nat, k: nat)
    requires Inv(s) && t < |s.pcs| && s.pcs[t].Idle? && 1 <= k < |turns|
    requires turns[0].thread == t && Possible(s, turns[0].choice) && Undisturbed(s, turns, t, turns[0].choice)
    ensures var s' := Run(s, turns[..k]);
            && Inv(s') && t < |s'.pcs| && !s'.pcs[t].Idle?
            && Busy(s', s'.pcs[t], turns[0].choice, exists j: nat :: j < k && RefusedAt(s, turns, t, j))
  {
    hide Inv, Run, Busy, Ended, Possible, Step, Refuses;
    RunNext(s, turns, k - 1);
    if k == 1 {
      FirstTurn(s, turns, t);
    } else {
      BusyUpTo(s, turns, t, k - 1);
      NextTurn(s, turns, t, turns[0].choice, k - 1, exists j: nat :: j < k - 1 && RefusedAt(s, turns, t, j));
      assert (exists j: nat :: j < k && RefusedAt(s, turns, t, j)) <==>
             (exists j: nat :: j < k - 1 && RefusedAt(s, turns, t, j)) || RefusedAt(s, turns, t, k - 1);
    }
  }

  lemma FirstTurn(s: State, turns: seq<Turn>, t: nat)
    requires Inv(s) && t < |s.pcs| && s.pcs[t].Idle? && turns != []
    requires turns[0].thread == t && Possible(s, turns[0].choice)
    ensures var s' := Run(s, turns[..1]);
            Inv(s') && t < |s'.pcs| && !s'.pcs[t].Idle? && Busy(s', s'.pcs[t], turns[0].choice, false)
    ensures !RefusedAt(s, turns, t, 0)
  {
    hide Inv, Busy, Possible, Step;
    RunNext(s, turns, 0);
    assert Run(s, turns[..0]) == s;
    CallBegins(s, t, turns[0].choice);
    StepKeepsInv(s, t, turns[0].choice);
    SameThreads(s, t, turns[0].choice);
  }

  lemma SameThreads(s: State, t: nat, c: Choice)
    requires t < |s.pcs|
    ensures |Step(s, t, c).pcs| == |s.pcs|
  {
    hide NextPc, Effect;
    OthersStay(s, t, c);
  }

  /** A call that is possible, from its first turn to its return in the middle of any run.  With its allocation
      granted, a thread that attaches has its block and a module that is loaded has its index and the block of
      the loading thread; refused, the index is free again.  A thread that detaches has no block, and of a module
      that is unloaded no block and no index is left. */
  lemma CallCompletes(s: State, turns: seq<Turn>, t: nat)
    requires Inv(s) && t < |s.pcs| && s.pcs[t].Idle? && |turns| > 1
    requires turns[0].thread == t && Possible(s, turns[0].choice) && Undisturbed(s, turns, t, turns[0].choice)
    requires t < |Run(s, turns).pcs| && Run(s, turns).pcs[t].Idle?
    ensures Ended(Run(s, turns), turns[0].choice, exists k: nat :: k < |turns| && RefusedAt(s, turns, t, k))
  {
    hide Inv, Run, Busy, Ended, Possible, Step, Refuses;
    var k := |turns| - 1;
    BusyUpTo(s, turns, t, k);
    NextTurn(s, turns, t, turns[0].choice, k, exists j: nat :: j < k && RefusedAt(s, turns, t, j));
    assert turns[..k + 1] == turns;
    assert (exists j: nat :: j < |turns| && RefusedAt(s, turns, t, j)) <==>
           (exists j: nat :: j < k && RefusedAt(s, turns, t, j)) || RefusedAt(s, turns, t, k);
  }

  /** How many more steps of its own a thread needs. */
  function StepsLeft(pc: Pc): nat {
    match pc
    case Idle => 0
    case Check(_, _) => 6
    case Allocate(_, _) => 5
    case Install(_, _, _) => 3
    case Discard(_, _, _) => 2
    case Finish(_, _) => 1
    case Exchange(_) => 2
    case FreeOne(_) => 1
    case Walk(_, todo) => 2 * todo + 2
    case WalkFree(_, todo, _) => 2 * todo + 3
    case ClearBit(_) => 1
  }

  /** Every call comes to an end: six steps at most, or two for each TEB and two more for an unload. */
  lemma StepsRunOut(s: State, t: nat, c: Choice)
    requires Inv(s) && t < |s.pcs| && !s.pcs[t].Idle?
    ensures t < |Step(s, t, c).pcs| && StepsLeft(Step(s, t, c).pcs[t]) < StepsLeft(s.pcs[t])
  {
    hide Inv, Effect, Unused;
    if s.pcs[t].Allocate? {
      UsesOwned(s, t, s.pcs[t].slot.index);
    }
  }
}
