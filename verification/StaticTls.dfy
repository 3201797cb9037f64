/** Static TLS blocks under interleaving.

    Threads install and free the per-thread block of a module by interlocked exchanges on the slots of
    any TEB, while modules are loaded and unloaded.  A step is what one interlocked operation, one
    allocation or one free does.  The registry holds a reference to every module that a thread
    notification is working on, so an unload starts only while no other thread uses that module. */
module StaticTls {
  import opened Wrappers

  // ---------------------------------------------------------------- the TLS directory

  const MAXULONG := 0xFFFF_FFFF

  /** The sizes LdkpInitializeModuleTls derives from the directory; the last sum is a 32-bit one. */
  function Sizes(start: nat, end: nat, zeroFill: nat): (r: Option<(nat, nat)>)
    requires zeroFill <= MAXULONG
  {
    if end < start || end - start > MAXULONG || zeroFill > MAXULONG - (end - start) then None
    else
      var raw := (end - start) % (MAXULONG + 1);
      Some((raw, (raw + zeroFill) % (MAXULONG + 1)))
  }

  /** The directory is accepted exactly when the template and the zero fill fit 32 bits together, and
      then no size has wrapped. */
  lemma SizesNeverWrap(start: nat, end: nat, zeroFill: nat)
    requires zeroFill <= MAXULONG
    ensures Sizes(start, end, zeroFill).Some? <==> start <= end && end - start + zeroFill <= MAXULONG
    ensures Sizes(start, end, zeroFill).Some? ==>
              Sizes(start, end, zeroFill).value == (end - start, end - start + zeroFill)
  {
  }

  /** What a fresh block holds: the raw template, then zeros. */
  datatype Template = Template(raw: seq<byte>, zeroFill: nat)
  {
    function Size(): nat { |raw| + zeroFill }
    function Image(): (r: seq<byte>)
      ensures |r| == |raw| + zeroFill && r[..|raw|] == raw && forall i :: |raw| <= i < |r| ==> r[i] == 0
    {
      raw + seq(zeroFill, _ => 0 as byte)
    }
  }

  /** RtlZeroMemory over the whole block, then RtlCopyMemory of the template. */
  method FillBlock(t: Template) returns (block: array<byte>)
    ensures fresh(block) && block[..] == t.Image()
  {
    block := new byte[t.Size()](_ => 0);
    for i := 0 to |t.raw|
      invariant block[..i] == t.raw[..i]
      invariant forall j :: i <= j < block.Length ==> block[j] == 0
    {
      block[i] := t.raw[i];
    }
    assert block[..] == t.Image();
  }

  // ---------------------------------------------------------------- the machine

  /** Where a thread is.  A block named in a position is in that thread's hand. */
  datatype Pc =
    | Idle
    | Check(slot: Slot, loading: bool)
    | Allocate(slot: Slot, loading: bool)
    | Install(slot: Slot, loading: bool, made: Option<nat>)
    | Discard(block: nat, index: nat, loading: bool)
    | Finish(index: nat, loading: bool)
    | Exchange(slot: Slot)
    | FreeOne(block: nat)
    | Walk(index: nat, todo: nat)
    | WalkFree(index: nat, todo: nat, block: nat)
    | ClearBit(index: nat)

  /** The module index a thread is working on as a user of the module. */
  predicate Uses(pc: Pc, index: nat) {
    match pc
    case Check(s, _) => s.index == index
    case Allocate(s, _) => s.index == index
    case Install(s, _, _) => s.index == index
    case Discard(_, i, _) => i == index
    case Finish(i, _) => i == index
    case Exchange(s) => s.index == index
    case _ => false
  }

  predicate Unloads(pc: Pc, index: nat) {
    match pc
    case Walk(i, _) => i == index
    case WalkFree(i, _, _) => i == index
    case ClearBit(i) => i == index
    case _ => false
  }

  predicate Loads(pc: Pc, index: nat) {
    Uses(pc, index) && !pc.Exchange? && pc.loading
  }

  /** A load or an unload has the module to itself. */
  predicate Alone(pc: Pc, index: nat) {
    Unloads(pc, index) || Loads(pc, index)
  }

  function Hand(pc: Pc): Option<nat> {
    match pc
    case Install(_, _, b) => b
    case Discard(b, _, _) => Some(b)
    case FreeOne(b) => Some(b)
    case WalkFree(_, _, b) => Some(b)
    case _ => None
  }

  /** `slots` lists the slots that are not NULL.  `owner` gives the template of each module with
      static TLS, by the index it took; `attached` are those past DLL_PROCESS_ATTACH's TLS set-up. */
  datatype State = State(
    tebs: nat,
    slots: map<Slot, nat>,
    blocks: map<nat, seq<byte>>,
    freed: seq<nat>,
    next: nat,
    bits: set<nat>,
    owner: map<nat, Template>,
    attached: set<nat>,
    pcs: seq<Pc>)

  datatype Choice =
    | NewTeb
    | LoadModule(index: nat, template: Template, teb: nat)
    | ThreadAttach(slot: Slot)
    | ThreadDetach(slot: Slot)
    | UnloadModule(index: nat)
    | Go(success: bool)

  predicate Unused(s: State, index: nat) {
    forall i :: 0 <= i < |s.pcs| ==> !Uses(s.pcs[i], index) && !Unloads(s.pcs[i], index)
  }

  predicate MayCall(s: State, slot: Slot) {
    slot.teb < s.tebs && slot.index in s.attached
  }

  predicate MayLoad(s: State, index: nat, teb: nat) {
    index !in s.bits && teb < s.tebs
  }

  predicate MayUnload(s: State, index: nat) {
    index in s.attached && Unused(s, index)
  }

  /** Where a thread at `pc` goes next; a call that is not possible now leaves it idle. */
  function NextPc(s: State, pc: Pc, c: Choice): Pc {
    match pc
    case Idle =>
      (match c
       case LoadModule(index, _, teb) => if MayLoad(s, index, teb) then Check(Slot(teb, index), true) else Idle
       case ThreadAttach(slot) => if MayCall(s, slot) then Check(slot, false) else Idle
       case ThreadDetach(slot) => if MayCall(s, slot) then Exchange(slot) else Idle
       case UnloadModule(index) => if MayUnload(s, index) then Walk(index, s.tebs) else Idle
       case _ => Idle)
    // LdkpInitializeStaticTlsForTeb
    case Check(slot, loading) => if slot in s.slots then Finish(slot.index, loading) else Allocate(slot, loading)
    case Allocate(slot, loading) =>
      if slot.index !in s.owner then pc
      else if s.owner[slot.index].Size() == 0 then Install(slot, loading, None)
      else if c.Go? && c.success then Install(slot, loading, Some(s.next))
      else if loading then ClearBit(slot.index)
      else Idle
    case Install(slot, loading, made) =>
      if made.Some? && slot in s.slots then Discard(made.value, slot.index, loading)
      else Finish(slot.index, loading)
    case Discard(_, index, loading) => Finish(index, loading)
    case Finish(_, _) => Idle
    // LdkpFreeStaticTlsForTeb
    case Exchange(slot) => if slot in s.slots then FreeOne(s.slots[slot]) else Idle
    case FreeOne(_) => Idle
    // LdkpUninitializeModuleTls: every TEB, then the bit
    case Walk(index, todo) =>
      if todo == 0 then ClearBit(index)
      else if Slot(todo - 1, index) in s.slots then WalkFree(index, todo - 1, s.slots[Slot(todo - 1, index)])
      else Walk(index, todo - 1)
    case WalkFree(index, todo, _) => Walk(index, todo)
    case ClearBit(_) => Idle
  }

  function Free(s: State, b: nat): State {
    s.(blocks := s.blocks - {b}, freed := s.freed + [b])
  }

  /** What that step does to the rest of the state. */
  function Effect(s: State, pc: Pc, c: Choice): State {
    match pc
    case Idle =>
      (match c
       case NewTeb => s.(tebs := s.tebs + 1)
       case LoadModule(index, template, teb) =>
         if MayLoad(s, index, teb) then s.(bits := s.bits + {index}, owner := s.owner[index := template]) else s
       case UnloadModule(index) =>
         if MayUnload(s, index) then s.(attached := s.attached - {index}) else s
       case _ => s)
    case Allocate(slot, _) =>
      if slot.index in s.owner && s.owner[slot.index].Size() != 0 && c.Go? && c.success
      then s.(blocks := s.blocks[s.next := s.owner[slot.index].Image()], next := s.next + 1)
      else s
    // InterlockedCompareExchangePointer( slot, made, NULL )
    case Install(slot, _, made) =>
      if made.Some? && slot !in s.slots then s.(slots := s.slots[slot := made.value]) else s
    case Discard(block, _, _) => Free(s, block)
    case Finish(index, loading) => if loading then s.(attached := s.attached + {index}) else s
    // InterlockedExchangePointer( slot, NULL )
    case Exchange(slot) => s.(slots := s.slots - {slot})
    case FreeOne(block) => Free(s, block)
    case Walk(index, todo) => if todo == 0 then s else s.(slots := s.slots - {Slot(todo - 1, index)})
    case WalkFree(_, _, block) => Free(s, block)
    case ClearBit(index) => s.(bits := s.bits - {index}, owner := s.owner - {index})
    case _ => s
  }

  /** One step of thread `t`. */
  function Step(s: State, t: nat, c: Choice): State
    requires t < |s.pcs|
  {
    Effect(s, s.pcs[t], c).(pcs := s.pcs[t := NextPc(s, s.pcs[t], c)])
  }

  datatype Turn = Turn(thread: nat, choice: Choice)

  function Run(s: State, turns: seq<Turn>): State
  {
    if turns == [] then s
    else
      var before := Run(s, turns[..|turns| - 1]);
      var turn := turns[|turns| - 1];
      if turn.thread < |before.pcs| then Step(before, turn.thread, turn.choice) else before
  }

  /** `clients` are the indices that TlsAlloc handed out. */
  function Start(tebs: nat, threads: nat, clients: set<nat>): State {
    State(tebs, map[], map[], [], 0, clients, map[], {}, seq(threads, _ => Idle))
  }

  // ---------------------------------------------------------------- the invariant

  type Slots = map<Slot, nat>
  type Blocks = map<nat, seq<byte>>

  ghost predicate Reachable(slots: Slots, pcs: seq<Pc>, b: nat) {
    (exists x :: x in slots && slots[x] == b) || (exists i :: 0 <= i < |pcs| && Hand(pcs[i]) == Some(b))
  }

  /** Every allocated block is in exactly one slot or in exactly one hand. */
  ghost predicate Conserved(slots: Slots, blocks: Blocks, pcs: seq<Pc>) {
    && (forall x :: x in slots ==> slots[x] in blocks)
    && (forall x, y :: x in slots && y in slots && x != y ==> slots[x] != slots[y])
    && (forall i :: 0 <= i < |pcs| && Hand(pcs[i]).Some? ==> Hand(pcs[i]).value in blocks)
    && (forall i, x :: 0 <= i < |pcs| && x in slots ==> Hand(pcs[i]) != Some(slots[x]))
    && (forall i, j :: 0 <= i < j < |pcs| && Hand(pcs[i]).Some? ==> Hand(pcs[i]) != Hand(pcs[j]))
    && (forall b :: b in blocks ==> Reachable(slots, pcs, b))
  }

  /** No block is freed twice, and none that is freed is still allocated. */
  ghost predicate FreedOnce(freed: seq<nat>, blocks: Blocks, next: nat) {
    && (forall i, j :: 0 <= i < j < |freed| ==> freed[i] != freed[j])
    && (forall i :: 0 <= i < |freed| ==> freed[i] !in blocks && freed[i] < next)
    && (forall b :: b in blocks ==> b < next)
  }

  /** A block is what the owner of the index wants there. */
  ghost predicate Fits(blocks: Blocks, owner: map<nat, Template>, index: nat, b: nat) {
    index in owner && b in blocks && blocks[b] == owner[index].Image()
  }

  /** What stands in a slot, or is about to, is the image of the module that owns the index. */
  ghost predicate Contents(slots: Slots, blocks: Blocks, owner: map<nat, Template>, pcs: seq<Pc>) {
    && (forall x :: x in slots ==> Fits(blocks, owner, x.index, slots[x]))
    && (forall i :: 0 <= i < |pcs| && pcs[i].Install? && pcs[i].made.Some? ==>
          Fits(blocks, owner, pcs[i].slot.index, pcs[i].made.value))
  }

  /** Who may be working on which index. */
  ghost predicate Role(owner: map<nat, Template>, attached: set<nat>, pc: Pc) {
    && (forall n :: Uses(pc, n) ==> n in owner)
    && (forall n :: Uses(pc, n) && !Loads(pc, n) ==> n in attached)
    && (forall n :: Alone(pc, n) ==> n in owner && n !in attached)
  }

  ghost predicate Roles(owner: map<nat, Template>, bits: set<nat>, attached: set<nat>, pcs: seq<Pc>) {
    && owner.Keys <= bits
    && attached <= owner.Keys
    && (forall i :: 0 <= i < |pcs| ==> Role(owner, attached, pcs[i]))
    && (forall i, j, n :: 0 <= i < |pcs| && 0 <= j < |pcs| && i != j && Alone(pcs[i], n) ==>
          !Uses(pcs[j], n) && !Unloads(pcs[j], n))
  }

  /** How far an unload has come, and what a load has not yet done. */
  predicate MayStand(pc: Pc, x: Slot) {
    match pc
    case Walk(index, todo) => x.index == index ==> x.teb < todo
    case WalkFree(index, todo, _) => x.index == index ==> x.teb < todo
    case ClearBit(index) => x.index != index
    case Check(slot, loading) => loading ==> x.index != slot.index
    case Allocate(slot, loading) => loading ==> x.index != slot.index
    case _ => true
  }

  ghost predicate Progress(slots: Slots, tebs: nat, pcs: seq<Pc>) {
    && (forall x :: x in slots ==> x.teb < tebs)
    && (forall i :: 0 <= i < |pcs| ==> SlotInRange(pcs[i], tebs))
    && (forall i, x :: 0 <= i < |pcs| && x in slots ==> MayStand(pcs[i], x))
  }

  ghost predicate Inv(s: State) {
    && Conserved(s.slots, s.blocks, s.pcs)
    && FreedOnce(s.freed, s.blocks, s.next)
    && Contents(s.slots, s.blocks, s.owner, s.pcs)
    && Roles(s.owner, s.bits, s.attached, s.pcs)
    && Progress(s.slots, s.tebs, s.pcs)
  }

  // ---------------------------------------------------------------- what one step can change

  /** Other threads stay where they are. */
  lemma OthersStay(s: State, t: nat, c: Choice)
    requires t < |s.pcs|
    ensures var s' := Step(s, t, c);
            |s'.pcs| == |s.pcs| && s.tebs <= s'.tebs && forall i :: 0 <= i < |s.pcs| && i != t ==> s'.pcs[i] == s.pcs[i]
  {
    hide NextPc, Unused;
  }

  /** A slot that is not NULL stood before, or the thread has just put its block there. */
  lemma SlotsChange(s: State, t: nat, c: Choice, x: Slot)
    requires t < |s.pcs| && x in Step(s, t, c).slots
    ensures var s' := Step(s, t, c);
            || (x in s.slots && s'.slots[x] == s.slots[x])
            || (x !in s.slots && s.pcs[t].Install? && s.pcs[t].slot == x && s.pcs[t].made == Some(s'.slots[x]))
  {
    hide NextPc;
  }

  /** Only the block in the thread's hand can go; only an unload's last step ends an ownership. */
  lemma BlocksStay(s: State, t: nat, c: Choice)
    requires t < |s.pcs| && s.owner.Keys <= s.bits && s.next !in s.blocks
    ensures var s' := Step(s, t, c);
            && (forall b :: b in s.blocks && Hand(s.pcs[t]) != Some(b) ==>
                b in s'.blocks && s'.blocks[b] == s.blocks[b])
            && (forall n :: n in s.owner && s.pcs[t] != ClearBit(n) ==> n in s'.owner && s'.owner[n] == s.owner[n])
  {
    hide NextPc;
  }

  /** A thread is only ever sent to slots of TEBs that exist. */
  lemma OwnSlotInRange(s: State, t: nat, c: Choice)
    requires t < |s.pcs|
    requires SlotInRange(s.pcs[t], s.tebs)
    ensures SlotInRange(Step(s, t, c).pcs[t], s.tebs)
  {
    hide Effect;
  }

  predicate SlotInRange(pc: Pc, tebs: nat) {
    pc.Install? || pc.Check? || pc.Allocate? ==> pc.slot.teb < tebs
  }

  /** An allocation makes the image of the module it is for. */
  lemma OwnBlockFits(s: State, t: nat, c: Choice)
    requires t < |s.pcs|
    ensures var s' := Step(s, t, c);
            s'.pcs[t].Install? && s'.pcs[t].made.Some? && s'.pcs[t] != s.pcs[t] ==>
              Fits(s'.blocks, s'.owner, s'.pcs[t].slot.index, s'.pcs[t].made.value)
    ensures Step(s, t, c).pcs[t].Install? ==> Step(s, t, c).pcs[t] != s.pcs[t]
  {
  }

  /** Where the thread has come, what stands in the slots agrees with how far it is. */
  lemma OwnProgress(s: State, t: nat, c: Choice, x: Slot)
    requires t < |s.pcs| && x in Step(s, t, c).slots
    requires s.owner.Keys <= s.bits
    requires x in s.slots ==> MayStand(s.pcs[t], x) && x.teb < s.tebs && x.index in s.owner
    ensures MayStand(Step(s, t, c).pcs[t], x)
  {
  }

  /** Which index the thread may come to work on, and alone. */
  lemma OwnIndexes(s: State, t: nat, c: Choice, n: nat)
    requires t < |s.pcs|
    ensures var pc' := Step(s, t, c).pcs[t];
            && (Uses(pc', n) || Unloads(pc', n) ==>
                  Uses(s.pcs[t], n) || Unloads(s.pcs[t], n) || n in s.attached || n !in s.bits)
            && (Alone(pc', n) ==> Alone(s.pcs[t], n) || Unused(s, n) || n !in s.bits)
  {
    hide Effect;
    hide Unused;
  }

  /** An index is attached or detached, owned or given up, only by who has it alone. */
  lemma SetsChange(s: State, t: nat, c: Choice, n: nat)
    requires t < |s.pcs|
    ensures var s' := Step(s, t, c);
            && ((n in s'.attached) != (n in s.attached) ==> Alone(s.pcs[t], n) || Unused(s, n))
            && (n in s.owner && n !in s'.owner ==> Alone(s.pcs[t], n))
  {
    hide NextPc;
    hide Unused;
  }

  lemma OwnRole(s: State, t: nat, c: Choice)
    requires t < |s.pcs| && s.owner.Keys <= s.bits && s.attached <= s.owner.Keys
    requires Role(s.owner, s.attached, s.pcs[t])
    ensures var s' := Step(s, t, c); Role(s'.owner, s'.attached, s'.pcs[t])
  {
    hide NextPc, Effect, Uses, Unloads, Loads;
    forall n ensures RoleAt(Step(s, t, c), Step(s, t, c).pcs[t], n) {
      assert RoleAt(s, s.pcs[t], n);
      OwnRoleAt(s, t, c, n);
    }
    RoleIsRoleAt(Step(s, t, c), Step(s, t, c).pcs[t]);
  }

  ghost predicate RoleAt(s: State, pc: Pc, n: nat) {
    && (Uses(pc, n) ==> n in s.owner)
    && (Uses(pc, n) && !Loads(pc, n) ==> n in s.attached)
    && (Alone(pc, n) ==> n in s.owner && n !in s.attached)
  }

  lemma RoleIsRoleAt(s: State, pc: Pc)
    requires forall n :: RoleAt(s, pc, n)
    ensures Role(s.owner, s.attached, pc)
  {
    hide Uses, Unloads, Loads;
    forall n ensures (Uses(pc, n) ==> n in s.owner) && (Uses(pc, n) && !Loads(pc, n) ==> n in s.attached)
                     && (Alone(pc, n) ==> n in s.owner && n !in s.attached)
    {
      assert RoleAt(s, pc, n);
    }
  }

  lemma OwnRoleAt(s: State, t: nat, c: Choice, n: nat)
    requires t < |s.pcs| && s.owner.Keys <= s.bits && s.attached <= s.owner.Keys
    requires RoleAt(s, s.pcs[t], n)
    ensures RoleAt(Step(s, t, c), Step(s, t, c).pcs[t], n)
  {
    hide Unused;
  }

  lemma SetsStayNested(s: State, t: nat, c: Choice)
    requires t < |s.pcs| && s.owner.Keys <= s.bits && s.attached <= s.owner.Keys
    requires Role(s.owner, s.attached, s.pcs[t])
    ensures var s' := Step(s, t, c); s'.owner.Keys <= s'.bits && s'.attached <= s'.owner.Keys
  {
    hide Unused, NextPc;
    match s.pcs[t] {
      case Finish(index, _) => assert Uses(s.pcs[t], index);
      case ClearBit(index) => assert Alone(s.pcs[t], index);
      case _ =>
    }
  }

  // ---------------------------------------------------------------- conservation

  lemma ReachableAfter(slots: Slots, pcs: seq<Pc>, slots': Slots, pcs': seq<Pc>, t: nat, b: nat)
    requires Reachable(slots, pcs, b) && t < |pcs| && |pcs'| == |pcs|
    requires forall i :: 0 <= i < |pcs| && i != t ==> pcs'[i] == pcs[i]
    requires Hand(pcs[t]) == Some(b) ==> Hand(pcs'[t]) == Some(b) || exists x :: x in slots' && slots'[x] == b
    requires forall x :: x in slots && slots[x] == b ==> (x in slots' && slots'[x] == b) || Hand(pcs'[t]) == Some(b)
    ensures Reachable(slots', pcs', b)
  {
    if x :| x in slots && slots[x] == b {
    } else {
      var i :| 0 <= i < |pcs| && Hand(pcs[i]) == Some(b);
      assert i != t ==> Hand(pcs'[i]) == Some(b);
    }
  }

  lemma MoveConserves(slots: Slots, blocks: Blocks, pcs: seq<Pc>, t: nat, pc: Pc)
    requires Conserved(slots, blocks, pcs) && t < |pcs| && Hand(pc) == Hand(pcs[t])
    ensures Conserved(slots, blocks, pcs[t := pc])
  {
    hide Reachable;
    forall b | b in blocks ensures Reachable(slots, pcs[t := pc], b) {
      ReachableAfter(slots, pcs, slots, pcs[t := pc], t, b);
    }
  }

  lemma AllocateConserves(slots: Slots, blocks: Blocks, pcs: seq<Pc>, t: nat, pc: Pc, b: nat, image: seq<byte>)
    requires Conserved(slots, blocks, pcs) && t < |pcs| && Hand(pcs[t]) == None
    requires b !in blocks && Hand(pc) == Some(b)
    ensures Conserved(slots, blocks[b := image], pcs[t := pc])
  {
    hide Reachable;
    var pcs' := pcs[t := pc];
    forall c | c in blocks[b := image] ensures Reachable(slots, pcs', c) {
      if c == b {
        assert Hand(pcs'[t]) == Some(b);
        InHand(slots, pcs', t, b);
      } else {
        ReachableAfter(slots, pcs, slots, pcs', t, c);
      }
    }
  }

  lemma InHand(slots: Slots, pcs: seq<Pc>, t: nat, b: nat)
    requires t < |pcs| && Hand(pcs[t]) == Some(b)
    ensures Reachable(slots, pcs, b)
  {
  }

  lemma InstallConserves(slots: Slots, blocks: Blocks, pcs: seq<Pc>, t: nat, pc: Pc, slot: Slot, b: nat)
    requires Conserved(slots, blocks, pcs) && t < |pcs| && Hand(pcs[t]) == Some(b)
    requires slot !in slots && Hand(pc) == None
    ensures Conserved(slots[slot := b], blocks, pcs[t := pc])
  {
    hide Reachable;
    var slots' := slots[slot := b];
    assert slot in slots' && slots'[slot] == b;
    forall c | c in blocks ensures Reachable(slots', pcs[t := pc], c) {
      ReachableAfter(slots, pcs, slots', pcs[t := pc], t, c);
    }
  }

  lemma TakeConserves(slots: Slots, blocks: Blocks, pcs: seq<Pc>, t: nat, pc: Pc, slot: Slot)
    requires Conserved(slots, blocks, pcs) && t < |pcs| && Hand(pcs[t]) == None
    requires slot in slots && Hand(pc) == Some(slots[slot])
    ensures Conserved(slots - {slot}, blocks, pcs[t := pc])
  {
    hide Reachable;
    forall c | c in blocks ensures Reachable(slots - {slot}, pcs[t := pc], c) {
      ReachableAfter(slots, pcs, slots - {slot}, pcs[t := pc], t, c);
    }
  }

  lemma FreeConserves(slots: Slots, blocks: Blocks, pcs: seq<Pc>, t: nat, pc: Pc, b: nat)
    requires Conserved(slots, blocks, pcs) && t < |pcs| && Hand(pcs[t]) == Some(b) && Hand(pc) == None
    ensures Conserved(slots, blocks - {b}, pcs[t := pc])
  {
    hide Reachable;
    forall c | c in blocks - {b} ensures Reachable(slots, pcs[t := pc], c) {
      ReachableAfter(slots, pcs, slots, pcs[t := pc], t, c);
    }
  }

  lemma StepConserves(s: State, t: nat, c: Choice)
    requires Inv(s) && t < |s.pcs|
    ensures var s' := Step(s, t, c); Conserved(s'.slots, s'.blocks, s'.pcs)
  {
    hide Conserved, Contents, Roles, Progress;
    var s' := Step(s, t, c);
    var pc, pc' := s.pcs[t], s'.pcs[t];
    assert pc' == pc ==> s.pcs[t := pc'] == s.pcs;
    match pc {
      case Install(slot, loading, made) =>
        if made.Some? && slot !in s.slots {
          InstallConserves(s.slots, s.blocks, s.pcs, t, pc', slot, made.value);
        } else {
          MoveConserves(s.slots, s.blocks, s.pcs, t, pc');
        }
      case Allocate(slot, loading) =>
        if Hand(pc').Some? {
          AllocateConserves(s.slots, s.blocks, s.pcs, t, pc', s.next, s.owner[slot.index].Image());
        } else {
          MoveConserves(s.slots, s.blocks, s.pcs, t, pc');
        }
      case Exchange(slot) =>
        if slot in s.slots {
          TakeConserves(s.slots, s.blocks, s.pcs, t, pc', slot);
        } else {
          assert s.slots - {slot} == s.slots;
          MoveConserves(s.slots, s.blocks, s.pcs, t, pc');
        }
      case Walk(index, todo) =>
        if todo > 0 && Slot(todo - 1, index) in s.slots {
          TakeConserves(s.slots, s.blocks, s.pcs, t, pc', Slot(todo - 1, index));
        } else {
          assert todo > 0 ==> s.slots - {Slot(todo - 1, index)} == s.slots;
          MoveConserves(s.slots, s.blocks, s.pcs, t, pc');
        }
      case Discard(block, _, _) => FreeConserves(s.slots, s.blocks, s.pcs, t, pc', block);
      case FreeOne(block) => FreeConserves(s.slots, s.blocks, s.pcs, t, pc', block);
      case WalkFree(_, _, block) => FreeConserves(s.slots, s.blocks, s.pcs, t, pc', block);
      case _ => MoveConserves(s.slots, s.blocks, s.pcs, t, pc');
    }
  }

  // ---------------------------------------------------------------- freeing once

  lemma StepFreesOnce(s: State, t: nat, c: Choice)
    requires Inv(s) && t < |s.pcs|
    ensures var s' := Step(s, t, c); FreedOnce(s'.freed, s'.blocks, s'.next)
  {
    hide Contents, Conserved, Roles, Progress, Step, FreedOnce;
    HandFacts(s, t);
    WhatIsFreed(s, t, c);
    var hand := Hand(s.pcs[t]);
    if Step(s, t, c).freed != s.freed {
      OneMoreFreed(s.freed, s.blocks, s.next, hand.value);
    } else if Step(s, t, c).next != s.next {
      OneMoreAllocated(s.freed, s.blocks, s.next, Step(s, t, c).blocks[s.next]);
    }
  }

  /** A step frees the block in the thread's hand, or allocates one at a new address, or does neither. */
  lemma WhatIsFreed(s: State, t: nat, c: Choice)
    requires t < |s.pcs|
    ensures var s', hand := Step(s, t, c), Hand(s.pcs[t]);
            || (hand.Some? && s'.freed == s.freed + [hand.value] && s'.blocks == s.blocks - {hand.value}
                && s'.next == s.next)
            || (s'.freed == s.freed && s.next in s'.blocks && s'.next == s.next + 1
                && s'.blocks == s.blocks[s.next := s'.blocks[s.next]])
            || (s'.freed == s.freed && s'.blocks == s.blocks && s'.next == s.next)
  {
    hide NextPc, Unused, MayLoad, MayUnload;
    match s.pcs[t] {
      case Idle =>
      case Allocate(_, _) =>
      case Discard(_, _, _) =>
      case FreeOne(_) =>
      case WalkFree(_, _, _) =>
      case _ =>
    }
  }

  lemma OneMoreFreed(freed: seq<nat>, blocks: Blocks, next: nat, block: nat)
    requires FreedOnce(freed, blocks, next) && block in blocks
    ensures FreedOnce(freed + [block], blocks - {block}, next)
  {
  }

  lemma OneMoreAllocated(freed: seq<nat>, blocks: Blocks, next: nat, content: seq<byte>)
    requires FreedOnce(freed, blocks, next)
    ensures FreedOnce(freed, blocks[next := content], next + 1)
  {
  }

  // ---------------------------------------------------------------- contents

  lemma StepKeepsContents(s: State, t: nat, c: Choice)
    requires Inv(s) && t < |s.pcs|
    ensures var s' := Step(s, t, c); Contents(s'.slots, s'.blocks, s'.owner, s'.pcs)
  {
    hide Inv, Step, Fits;
    OthersStay(s, t, c);
    var s' := Step(s, t, c);
    forall x | x in s'.slots ensures Fits(s'.blocks, s'.owner, x.index, s'.slots[x]) {
      SlotStillFits(s, t, c, x);
    }
    forall i | 0 <= i < |s'.pcs| && s'.pcs[i].Install? && s'.pcs[i].made.Some?
      ensures Fits(s'.blocks, s'.owner, s'.pcs[i].slot.index, s'.pcs[i].made.value)
    {
      HandStillFits(s, t, c, i);
    }
  }

  /** What the invariant says of one slot that is not NULL, seen by thread `t`. */
  lemma SlotFacts(s: State, t: nat, x: Slot)
    requires Inv(s) && t < |s.pcs| && x in s.slots
    ensures Fits(s.blocks, s.owner, x.index, s.slots[x])
    ensures Hand(s.pcs[t]) != Some(s.slots[x]) && s.slots[x] < s.next && x.index in s.owner
    ensures MayStand(s.pcs[t], x) && x.teb < s.tebs
  {
    hide Reachable, Roles;
  }

  /** What it says of a block in hand. */
  lemma HandFacts(s: State, t: nat)
    requires Inv(s) && t < |s.pcs|
    ensures Hand(s.pcs[t]).Some? ==> Hand(s.pcs[t]).value in s.blocks && Hand(s.pcs[t]).value < s.next
    ensures s.pcs[t].Install? && s.pcs[t].made.Some? ==>
              Fits(s.blocks, s.owner, s.pcs[t].slot.index, s.pcs[t].made.value)
    ensures s.owner.Keys <= s.bits
    ensures s.next !in s.blocks
  {
    hide Reachable, Progress;
  }

  lemma SlotStillFits(s: State, t: nat, c: Choice, x: Slot)
    requires Inv(s) && t < |s.pcs| && x in Step(s, t, c).slots
    ensures var s' := Step(s, t, c); Fits(s'.blocks, s'.owner, x.index, s'.slots[x])
  {
    hide Inv, Step;
    HandFacts(s, t);
    BlocksStay(s, t, c);
    SlotsChange(s, t, c, x);
    if x in s.slots {
      SlotFacts(s, t, x);
    } else {
      InstalledBlockStays(s, t, c);
    }
  }

  lemma InstalledBlockStays(s: State, t: nat, c: Choice)
    requires t < |s.pcs| && s.pcs[t].Install?
    ensures Step(s, t, c).blocks == s.blocks && Step(s, t, c).owner == s.owner
  {
  }

  /** Two hands never hold the same block, and an index in use stays owned. */
  lemma HandsDiffer(s: State, t: nat, i: nat)
    requires Inv(s) && t < |s.pcs| && i < |s.pcs| && i != t
    ensures Hand(s.pcs[i]).Some? ==> Hand(s.pcs[t]) != Hand(s.pcs[i])
    ensures forall n :: Uses(s.pcs[i], n) ==> n in s.owner && !Alone(s.pcs[t], n)
  {
    hide Reachable, Progress, Contents, FreedOnce;
    assert Role(s.owner, s.attached, s.pcs[i]);
  }

  lemma HandStillFits(s: State, t: nat, c: Choice, i: nat)
    requires Inv(s) && t < |s.pcs|
    requires var s' := Step(s, t, c); i < |s'.pcs| && s'.pcs[i].Install? && s'.pcs[i].made.Some?
    ensures var s' := Step(s, t, c); Fits(s'.blocks, s'.owner, s'.pcs[i].slot.index, s'.pcs[i].made.value)
  {
    hide Inv, Step;
    HandFacts(s, t);
    OthersStay(s, t, c);
    OwnBlockFits(s, t, c);
    if i != t {
      BlocksStay(s, t, c);
      HandFacts(s, i);
      HandsDiffer(s, t, i);
      assert Uses(s.pcs[i], s.pcs[i].slot.index);
      assert s.pcs[t].ClearBit? ==> Alone(s.pcs[t], s.pcs[t].index);
    }
  }

  // ---------------------------------------------------------------- roles

  lemma StepKeepsProgress(s: State, t: nat, c: Choice)
    requires Inv(s) && t < |s.pcs|
    ensures var s' := Step(s, t, c); Progress(s'.slots, s'.tebs, s'.pcs)
  {
    hide Inv, Step, MayStand, SlotInRange;
    var s' := Step(s, t, c);
    OthersStay(s, t, c);
    forall i | 0 <= i < |s'.pcs| ensures SlotInRange(s'.pcs[i], s'.tebs) {
      InRange(s, t, c, i);
    }
    forall x | x in s'.slots ensures x.teb < s'.tebs {
      SlotsChange(s, t, c, x);
      ThreadInRange(s, t);
      if x in s.slots {
        SlotFacts(s, t, x);
      }
    }
    forall i, x | 0 <= i < |s'.pcs| && x in s'.slots ensures MayStand(s'.pcs[i], x) {
      StandsAfterStep(s, t, c, i, x);
    }
  }

  lemma ThreadInRange(s: State, t: nat)
    requires Inv(s) && t < |s.pcs|
    ensures SlotInRange(s.pcs[t], s.tebs) && (s.pcs[t].Install? ==> s.pcs[t].slot.teb < s.tebs)
  {
    hide Conserved, FreedOnce, Contents, Roles, MayStand;
  }

  lemma InRange(s: State, t: nat, c: Choice, i: nat)
    requires Inv(s) && t < |s.pcs| && i < |s.pcs|
    ensures |Step(s, t, c).pcs| == |s.pcs| && SlotInRange(Step(s, t, c).pcs[i], Step(s, t, c).tebs)
  {
    hide Inv, Step;
    OthersStay(s, t, c);
    ThreadInRange(s, i);
    ThreadInRange(s, t);
    OwnSlotInRange(s, t, c);
  }

  lemma StandsAfterStep(s: State, t: nat, c: Choice, i: nat, x: Slot)
    requires Inv(s) && t < |s.pcs| && i < |s.pcs| && x in Step(s, t, c).slots
    ensures |Step(s, t, c).pcs| == |s.pcs| && MayStand(Step(s, t, c).pcs[i], x)
  {
    hide Inv, Step;
    OthersStay(s, t, c);
    SlotsChange(s, t, c, x);
    HandFacts(s, t);
    if x in s.slots {
      SlotFacts(s, i, x);
      SlotFacts(s, t, x);
    }
    if i == t {
      OwnProgress(s, t, c, x);
    } else if x !in s.slots {
      assert Uses(s.pcs[t], x.index);
      HandsDiffer(s, i, t);
      assert !Alone(s.pcs[i], x.index);
    }
  }

  // ---------------------------------------------------------------- roles

  lemma RoleFacts(s: State, i: nat)
    requires Inv(s) && i < |s.pcs|
    ensures Role(s.owner, s.attached, s.pcs[i]) && s.owner.Keys <= s.bits && s.attached <= s.owner.Keys
    ensures forall j, n :: 0 <= j < |s.pcs| && j != i && Alone(s.pcs[i], n) ==>
              !Uses(s.pcs[j], n) && !Unloads(s.pcs[j], n)
  {
    hide Conserved, FreedOnce, Contents, Progress, Role;
  }

  lemma StepKeepsRoles(s: State, t: nat, c: Choice)
    requires Inv(s) && t < |s.pcs|
    ensures var s' := Step(s, t, c); Roles(s'.owner, s'.bits, s'.attached, s'.pcs)
  {
    hide Inv, Step, Role, Uses, Unloads, Loads;
    var s' := Step(s, t, c);
    OthersStay(s, t, c);
    RoleFacts(s, t);
    OwnRole(s, t, c);
    SetsStayNested(s, t, c);
    forall i | 0 <= i < |s'.pcs| ensures Role(s'.owner, s'.attached, s'.pcs[i]) {
      if i != t {
        OtherRole(s, t, c, i);
      }
    }
    forall i, j, n | 0 <= i < |s'.pcs| && 0 <= j < |s'.pcs| && i != j && Alone(s'.pcs[i], n)
      ensures !Uses(s'.pcs[j], n) && !Unloads(s'.pcs[j], n)
    {
      StillAlone(s, t, c, i, j, n);
    }
  }

  lemma OtherRole(s: State, t: nat, c: Choice, i: nat)
    requires Inv(s) && t < |s.pcs| && i < |s.pcs| && i != t
    ensures var s' := Step(s, t, c); Role(s'.owner, s'.attached, s.pcs[i])
  {
    hide Inv, Step, Uses, Unloads, Loads;
    RoleFacts(s, i);
    RoleFacts(s, t);
    forall n ensures Uses(s.pcs[i], n) || Alone(s.pcs[i], n) ==>
               (n in Step(s, t, c).owner) && ((n in Step(s, t, c).attached) == (n in s.attached))
    {
      SetsChange(s, t, c, n);
      if Uses(s.pcs[i], n) || Alone(s.pcs[i], n) {
        AloneUses(s.pcs[i], n);
        assert n in s.owner;
      }
    }
  }

  lemma AloneUses(pc: Pc, n: nat)
    ensures Alone(pc, n) ==> Uses(pc, n) || Unloads(pc, n)
  {
  }

  lemma StillAlone(s: State, t: nat, c: Choice, i: nat, j: nat, n: nat)
    requires Inv(s) && t < |s.pcs| && i < |s.pcs| && j < |s.pcs| && i != j
    requires |Step(s, t, c).pcs| == |s.pcs| && Alone(Step(s, t, c).pcs[i], n)
    ensures !Uses(Step(s, t, c).pcs[j], n) && !Unloads(Step(s, t, c).pcs[j], n)
  {
    hide Inv, Step, Uses, Unloads, Loads;
    OthersStay(s, t, c);
    RoleFacts(s, i);
    RoleFacts(s, j);
    OwnIndexes(s, t, c, n);
    AloneUses(s.pcs[i], n);
    UsesOwned(s, i, n);
    UsesOwned(s, j, n);
  }

  lemma UsesOwned(s: State, i: nat, n: nat)
    requires Inv(s) && i < |s.pcs|
    ensures Uses(s.pcs[i], n) || Unloads(s.pcs[i], n) ==> n in s.owner && n in s.bits
    ensures Alone(s.pcs[i], n) ==> n !in s.attached
  {
    hide Conserved, FreedOnce, Contents, Progress;
    RoleFacts(s, i);
  }

  // ---------------------------------------------------------------- whole runs

  lemma StepKeepsInv(s: State, t: nat, c: Choice)
    requires Inv(s) && t < |s.pcs|
    ensures Inv(Step(s, t, c))
  {
    hide Step, Conserved, FreedOnce, Contents, Roles, Progress;
    StepConserves(s, t, c);
    StepFreesOnce(s, t, c);
    StepKeepsContents(s, t, c);
    StepKeepsRoles(s, t, c);
    StepKeepsProgress(s, t, c);
  }

  lemma {:induction false} RunKeepsInv(tebs: nat, threads: nat, clients: set<nat>, turns: seq<Turn>)
    ensures Inv(Run(Start(tebs, threads, clients), turns))
  {
    if turns != [] {
      hide Step, Inv;
      var before := Run(Start(tebs, threads, clients), turns[..|turns| - 1]);
      RunKeepsInv(tebs, threads, clients, turns[..|turns| - 1]);
      var turn := turns[|turns| - 1];
      if turn.thread < |before.pcs| {
        StepKeepsInv(before, turn.thread, turn.choice);
      }
    }
  }

  /** Conservation: in every run, each allocated block is in one slot or in one hand and nowhere else,
      and no block is freed twice. */
  lemma BlocksAreConserved(tebs: nat, threads: nat, clients: set<nat>, turns: seq<Turn>)
    ensures var s := Run(Start(tebs, threads, clients), turns);
            Conserved(s.slots, s.blocks, s.pcs) && FreedOnce(s.freed, s.blocks, s.next)
  {
    hide Conserved, FreedOnce, Contents, Roles, Progress, Step, Run;
    RunKeepsInv(tebs, threads, clients, turns);
  }

  /** What a slot holds is the template of the module that owns its index, followed by zeros. */
  lemma SlotsHoldTheImage(tebs: nat, threads: nat, clients: set<nat>, turns: seq<Turn>, x: Slot)
    ensures var s := Run(Start(tebs, threads, clients), turns);
            x in s.slots ==>
              && x.index in s.owner && s.slots[x] in s.blocks
              && s.blocks[s.slots[x]] == s.owner[x.index].Image()
              && |s.blocks[s.slots[x]]| == s.owner[x.index].Size()
  {
    hide Conserved, FreedOnce, Roles, Progress, Step, Run;
    RunKeepsInv(tebs, threads, clients, turns);
  }

  /** A free bit has no slot behind it: a bit is cleared only once every TEB's slot is NULL, and the
      modules with static TLS own bits of their own. */
  lemma FreeBitsHaveNoSlots(tebs: nat, threads: nat, clients: set<nat>, turns: seq<Turn>, x: Slot)
    ensures var s := Run(Start(tebs, threads, clients), turns);
            (x.index !in s.bits ==> x !in s.slots) && s.owner.Keys <= s.bits
  {
    hide Conserved, FreedOnce, Progress, Step, Run, Fits, Role;
    RunKeepsInv(tebs, threads, clients, turns);
    var s := Run(Start(tebs, threads, clients), turns);
    if x in s.slots {
      SlotFits(s, x);
    }
  }

  lemma SlotFits(s: State, x: Slot)
    requires Contents(s.slots, s.blocks, s.owner, s.pcs) && x in s.slots
    ensures x.index in s.owner
  {
  }
}
