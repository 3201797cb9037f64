/** Fiber-local values under interleaving: any number of threads store values, free indexes and tear down
    TEBs at the same time.  A slot changes hands by one exchange, so whoever takes a value out is the only
    one who delivers it. */
module FlsExchange {
  import opened Wrappers

  /** Where a thread is, between two atomic steps.  A teardown that found no callback remembers which event
      that was. */
  datatype Pc =
    | Idle
    /** FlsFree, with the callback it took from the table, before the exchange at one TEB. */
    | Freeing(index: nat, callback: nat, teb: nat)
    | FreeCall(index: nat, callback: nat, teb: nat, data: nat)
    /** LdkpInvokeFlsCallback before it reads a callback, before the exchange, and before the call. */
    | Tearing(teb: nat, index: nat)
    | TearingWith(teb: nat, index: nat, callback: nat, read: nat)
    | TearCall(teb: nat, index: nat, callback: nat, read: nat, data: nat)

  /** What an idle thread does, or which TEB is next on a walk (none when it is over). */
  datatype Choice =
    | SetValue(slot: Slot)
    | ClearValue(slot: Slot)
    | Alloc(index: nat, callback: nat, teb: nat)
    | Free(index: nat, teb: nat)
    | Tear(teb: nat)
    | Next(next: Option<nat>)

  /** What happened to the callback table, which reads of it found nothing, and which slots were cleared. */
  datatype Event =
    | Registered(index: nat, callback: nat)
    | Freed(index: nat)
    | ReadNone(slot: Slot)
    | Cleared(slot: Slot)

  /** Why a value was never delivered: another value took its slot, the slot was cleared, or the teardown
      that took it had found no callback. */
  datatype Cause = Overwritten(later: nat) | ByClear(at: nat) | NoCallback(read: nat)

  /** Where a value is: values are numbered in the order they are stored. */
  datatype Place = InSlot(slot: Slot) | InHand(thread: nat) | Delivered(call: nat) | Dropped(cause: Cause)

  /** Where and when a value was stored, the time being the number of events before. */
  datatype Origin = Origin(slot: Slot, time: nat)

  datatype State = State(
    slots: map<Slot, nat>,
    callbacks: map<nat, nat>,
    pcs: seq<Pc>,
    delivered: seq<Call>,
    places: map<nat, Place>,
    origins: seq<Origin>,
    events: seq<Event>)

  function Start(threads: nat): State {
    State(map[], map[], seq(threads, _ => Idle), [], map[], [], [])
  }

  function Holding(pc: Pc): Option<nat> {
    match pc
    case FreeCall(_, _, _, data) => Some(data)
    case TearCall(_, _, _, _, data) => Some(data)
    case _ => None
  }

  // ---------------------------------------------------------------- what a step does to a value

  /** InterlockedExchangePointer( slot, NULL ) by a thread that keeps what it finds. */
  function Take(s: State, t: nat, slot: Slot, empty: Pc, full: nat -> Pc): State
    requires t < |s.pcs|
  {
    if slot in s.slots then
      var x := s.slots[slot];
      s.(slots := s.slots - {slot}, pcs := s.pcs[t := full(x)], places := s.places[x := InHand(t)])
    else s.(pcs := s.pcs[t := empty])
  }

  /** The same, by a thread that does not look at what it finds. */
  function Drop(s: State, slot: Slot, cause: Cause): State {
    if slot in s.slots
    then s.(slots := s.slots - {slot}, places := s.places[s.slots[slot] := Dropped(cause)])
    else s
  }

  /** A new value in a slot; the one that was there is lost. */
  function Store(s: State, slot: Slot): State {
    var x := |s.origins|;
    var d := Drop(s, slot, Overwritten(x));
    d.(slots := d.slots[slot := x], places := d.places[x := InSlot(slot)],
       origins := d.origins + [Origin(slot, |d.events|)])
  }

  function Clear(s: State, slot: Slot): State {
    var d := Drop(s, slot, ByClear(|s.events|));
    d.(events := d.events + [Cleared(slot)])
  }

  function Deliver(s: State, t: nat, callback: nat, x: nat, pc: Pc): State
    requires t < |s.pcs|
  {
    s.(pcs := s.pcs[t := pc], delivered := s.delivered + [Call(callback, x)],
       places := s.places[x := Delivered(|s.delivered|)])
  }

  function Forget(s: State, t: nat, read: nat, x: nat, pc: Pc): State
    requires t < |s.pcs|
  {
    s.(pcs := s.pcs[t := pc], places := s.places[x := Dropped(NoCallback(read))])
  }

  function Move(s: State, t: nat, pc: Pc): State
    requires t < |s.pcs|
  {
    s.(pcs := s.pcs[t := pc])
  }

  function CallbackIn(callbacks: map<nat, nat>, index: nat): nat {
    if index in callbacks then callbacks[index] else 0
  }

  function Register(s: State, index: nat, callback: nat): State {
    s.(callbacks := s.callbacks[index := callback], events := s.events + [Registered(index, callback)])
  }

  function Unregister(s: State, index: nat): State {
    s.(callbacks := s.callbacks - {index}, events := s.events + [Freed(index)])
  }

  /** The teardown reads the callback for one slot. */
  function Read(s: State, t: nat, teb: nat, index: nat): State
    requires t < |s.pcs|
  {
    var callback := CallbackIn(s.callbacks, index);
    var moved := Move(s, t, TearingWith(teb, index, callback, |s.events|));
    if callback == 0 then moved.(events := moved.events + [ReadNone(Slot(teb, index))]) else moved
  }

  /** A step of thread `t`; a thread that is not there does nothing. */
  function Step(s: State, t: nat, c: Choice): State {
    if t >= |s.pcs| then s
    else
      match s.pcs[t]
      case Idle => StepIdle(s, t, c)
      case Freeing(index, callback, teb) =>
        Take(s, t, Slot(teb, index), Walk(index, callback, c), (x: nat) => FreeCall(index, callback, teb, x))
      case FreeCall(index, callback, teb, x) => Deliver(s, t, callback, x, Walk(index, callback, c))
      case Tearing(teb, index) => if index < FLS_SLOTS then Read(s, t, teb, index) else Move(s, t, Idle)
      case TearingWith(teb, index, callback, read) =>
        Take(s, t, Slot(teb, index), Tearing(teb, index + 1), (x: nat) => TearCall(teb, index, callback, read, x))
      case TearCall(teb, index, callback, read, x) =>
        if callback != 0 then Deliver(s, t, callback, x, Tearing(teb, index + 1))
        else Forget(s, t, read, x, Tearing(teb, index + 1))
  }

  /** FlsFree goes on to the next TEB or is done. */
  function Walk(index: nat, callback: nat, c: Choice): Pc {
    if c.Next? && c.next.Some? then Freeing(index, callback, c.next.value) else Idle
  }

  function StepIdle(s: State, t: nat, c: Choice): State
    requires t < |s.pcs|
  {
    match c
    case SetValue(slot) => Store(s, slot)
    case ClearValue(slot) => Clear(s, slot)
    case Alloc(index, callback, teb) => Clear(Register(s, index, callback), Slot(teb, index))
    case Free(index, teb) =>
      var callback := CallbackIn(s.callbacks, index);
      if callback != 0 then Move(Unregister(s, index), t, Freeing(index, callback, teb)) else Unregister(s, index)
    case Tear(teb) => Move(s, t, Tearing(teb, 0))
    case Next(_) => s
  }

  // ---------------------------------------------------------------- conservation

  /** What is in a slot, in a hand or delivered is at exactly that place, and nowhere else. */
  ghost predicate Consistent(s: State) {
    && (forall p :: p in s.slots ==> s.slots[p] in s.places && s.places[s.slots[p]] == InSlot(p))
    && (forall t :: 0 <= t < |s.pcs| ==>
          Holding(s.pcs[t]).Some? ==>
          Holding(s.pcs[t]).value in s.places && s.places[Holding(s.pcs[t]).value] == InHand(t))
    && (forall k :: 0 <= k < |s.delivered| ==>
          s.delivered[k].data in s.places && s.places[s.delivered[k].data] == Delivered(k))
  }

  predicate Really(s: State, x: nat, place: Place) {
    match place
    case InSlot(p) => p in s.slots && s.slots[p] == x
    case InHand(t) => t < |s.pcs| && Holding(s.pcs[t]) == Some(x)
    case Delivered(k) => k < |s.delivered| && s.delivered[k].data == x
    case Dropped(_) => true
  }

  /** Every value ever stored is on record, and where the record says. */
  ghost predicate Complete(s: State) {
    && (forall x :: 0 <= x < |s.origins| <==> x in s.places)
    && (forall x :: x in s.places ==> Really(s, x, s.places[x]))
  }

  lemma TakeConserves(s: State, t: nat, slot: Slot, empty: Pc, full: nat -> Pc)
    requires Consistent(s) && Complete(s) && t < |s.pcs| && Holding(s.pcs[t]).None?
    requires Holding(empty).None? && forall x: nat :: Holding(full(x)) == Some(x)
    ensures Consistent(Take(s, t, slot, empty, full)) && Complete(Take(s, t, slot, empty, full))
  {
  }

  lemma DropConserves(s: State, slot: Slot, cause: Cause)
    requires Consistent(s) && Complete(s)
    ensures Consistent(Drop(s, slot, cause)) && Complete(Drop(s, slot, cause))
    ensures slot !in Drop(s, slot, cause).slots
  {
  }

  lemma StoreConserves(s: State, slot: Slot)
    requires Consistent(s) && Complete(s)
    ensures Consistent(Store(s, slot)) && Complete(Store(s, slot))
  {
    var x := |s.origins|;
    DropConserves(s, slot, Overwritten(x));
    StoreInEmpty(Drop(s, slot, Overwritten(x)), slot);
  }

  lemma StoreInEmpty(d: State, slot: Slot)
    requires Consistent(d) && Complete(d) && slot !in d.slots
    ensures var x := |d.origins|;
            var s := d.(slots := d.slots[slot := x], places := d.places[x := InSlot(slot)],
                        origins := d.origins + [Origin(slot, |d.events|)]);
            Consistent(s) && Complete(s)
  {
    hide Holding;
  }

  lemma ClearConserves(s: State, slot: Slot)
    requires Consistent(s) && Complete(s)
    ensures Consistent(Clear(s, slot)) && Complete(Clear(s, slot))
  {
    DropConserves(s, slot, ByClear(|s.events|));
    hide Drop;
  }

  lemma DeliverConserves(s: State, t: nat, callback: nat, x: nat, pc: Pc)
    requires Consistent(s) && Complete(s) && t < |s.pcs| && Holding(s.pcs[t]) == Some(x) && Holding(pc).None?
    ensures Consistent(Deliver(s, t, callback, x, pc)) && Complete(Deliver(s, t, callback, x, pc))
  {
  }

  lemma ForgetConserves(s: State, t: nat, read: nat, x: nat, pc: Pc)
    requires Consistent(s) && Complete(s) && t < |s.pcs| && Holding(s.pcs[t]) == Some(x) && Holding(pc).None?
    ensures Consistent(Forget(s, t, read, x, pc)) && Complete(Forget(s, t, read, x, pc))
  {
  }

  lemma MoveConserves(s: State, t: nat, pc: Pc)
    requires Consistent(s) && Complete(s) && t < |s.pcs| && Holding(s.pcs[t]).None? && Holding(pc).None?
    ensures Consistent(Move(s, t, pc)) && Complete(Move(s, t, pc))
  {
  }

  /** Events and the callback table hold no value. */
  lemma TableHoldsNothing(s: State, callbacks: map<nat, nat>, events: seq<Event>)
    requires Consistent(s) && Complete(s)
    ensures Consistent(s.(callbacks := callbacks, events := events))
            && Complete(s.(callbacks := callbacks, events := events))
  {
  }

  lemma StepConserves(s: State, t: nat, c: Choice)
    requires Consistent(s) && Complete(s)
    ensures Consistent(Step(s, t, c)) && Complete(Step(s, t, c))
  {
    hide Take, Drop, Store, Clear, Deliver, Forget, Move, Consistent, Complete;
    if t < |s.pcs| {
      match s.pcs[t]
      case Idle => StepIdleConserves(s, t, c);
      case Freeing(index, callback, teb) =>
        TakeConserves(s, t, Slot(teb, index), Walk(index, callback, c), (x: nat) => FreeCall(index, callback, teb, x));
      case FreeCall(index, callback, teb, x) => DeliverConserves(s, t, callback, x, Walk(index, callback, c));
      case Tearing(teb, index) => ReadConserves(s, t, teb, index);
      case TearingWith(teb, index, callback, read) =>
        TakeConserves(s, t, Slot(teb, index), Tearing(teb, index + 1),
                      (x: nat) => TearCall(teb, index, callback, read, x));
      case TearCall(teb, index, callback, read, x) =>
        DeliverConserves(s, t, callback, x, Tearing(teb, index + 1));
        ForgetConserves(s, t, read, x, Tearing(teb, index + 1));
    }
  }

  lemma ReadConserves(s: State, t: nat, teb: nat, index: nat)
    requires Consistent(s) && Complete(s) && t < |s.pcs| && Holding(s.pcs[t]).None?
    ensures Consistent(Read(s, t, teb, index)) && Complete(Read(s, t, teb, index))
    ensures Consistent(Move(s, t, Idle)) && Complete(Move(s, t, Idle))
  {
    hide Consistent, Complete;
    MoveConserves(s, t, Idle);
    MoveConserves(s, t, TearingWith(teb, index, CallbackIn(s.callbacks, index), |s.events|));
    var moved := Move(s, t, TearingWith(teb, index, CallbackIn(s.callbacks, index), |s.events|));
    TableHoldsNothing(moved, moved.callbacks, moved.events + [ReadNone(Slot(teb, index))]);
  }

  lemma StepIdleConserves(s: State, t: nat, c: Choice)
    requires Consistent(s) && Complete(s) && t < |s.pcs| && s.pcs[t] == Idle
    ensures Consistent(StepIdle(s, t, c)) && Complete(StepIdle(s, t, c))
  {
    hide Drop, Store, Clear, Consistent, Complete;
    match c
    case SetValue(slot) => StoreConserves(s, slot);
    case ClearValue(slot) => ClearConserves(s, slot);
    case Alloc(index, callback, teb) =>
      TableHoldsNothing(s, s.callbacks[index := callback], s.events + [Registered(index, callback)]);
      ClearConserves(Register(s, index, callback), Slot(teb, index));
    case Free(index, teb) =>
      TableHoldsNothing(s, s.callbacks - {index}, s.events + [Freed(index)]);
      MoveConserves(Unregister(s, index), t, Freeing(index, CallbackIn(s.callbacks, index), teb));
    case Tear(teb) => MoveConserves(s, t, Tearing(teb, 0));
    case Next(_) =>
  }

  // ---------------------------------------------------------------- callbacks and causes

  /** The callback of an index after these events, zero without one. */
  function CallbackAfter(events: seq<Event>, index: nat): nat {
    if events == [] then 0
    else
      match events[|events| - 1]
      case Registered(i, callback) => if i == index then callback else CallbackAfter(events[..|events| - 1], index)
      case Freed(i) => if i == index then 0 else CallbackAfter(events[..|events| - 1], index)
      case _ => CallbackAfter(events[..|events| - 1], index)
  }

  /** Where the events leave an index without a callback, it was never allocated, or the last that happened
      to it is that it was freed or allocated without one. */
  lemma {:induction false} NoCallbackMeans(events: seq<Event>, index: nat)
    requires CallbackAfter(events, index) == 0
    ensures || (forall k :: 0 <= k < |events| ==> !About(events[k], index))
            || (exists k :: 0 <= k < |events| && (events[k] == Freed(index) || events[k] == Registered(index, 0))
                            && forall l :: k < l < |events| ==> !About(events[l], index))
  {
    if events != [] {
      var init, last := events[..|events| - 1], |events| - 1;
      if !About(events[last], index) {
        NoCallbackMeans(init, index);
        if k :| 0 <= k < |init| && (init[k] == Freed(index) || init[k] == Registered(index, 0))
                && forall l :: k < l < |init| ==> !About(init[l], index)
        {
          assert events[k] == init[k];
          assert forall l :: k < l < last ==> events[l] == init[l];
        } else {
          assert forall k :: 0 <= k < last ==> events[k] == init[k];
        }
      }
    }
  }

  /** The event changes the callback of this index. */
  predicate About(e: Event, index: nat) {
    (e.Registered? || e.Freed?) && e.index == index
  }

  /** What the cause of a loss means. */
  predicate Caused(s: State, x: nat, cause: Cause)
    requires x < |s.origins|
  {
    var slot := s.origins[x].slot;
    match cause
    case Overwritten(y) => x < y < |s.origins| && s.origins[y].slot == slot
    case ByClear(at) => s.origins[x].time <= at < |s.events| && s.events[at] == Cleared(slot)
    case NoCallback(read) =>
      read < |s.events| && s.events[read] == ReadNone(slot) && CallbackAfter(s.events[..read], slot.index) == 0
  }

  /** What a thread has in hand comes from the slot it is at; what it has read was there to read. */
  predicate RightPc(s: State, pc: Pc) {
    && (pc.Freeing? || pc.FreeCall? ==> pc.callback != 0 && Registered(pc.index, pc.callback) in s.events)
    && (pc.TearingWith? || pc.TearCall? ==>
          if pc.callback != 0 then Registered(pc.index, pc.callback) in s.events
          else
            && pc.read < |s.events| && s.events[pc.read] == ReadNone(Slot(pc.teb, pc.index))
            && CallbackAfter(s.events[..pc.read], pc.index) == 0)
    && (Holding(pc).Some? ==>
          Holding(pc).value < |s.origins| && s.origins[Holding(pc).value].slot == Slot(pc.teb, pc.index))
  }

  /** The parts of the invariant about callbacks: the table agrees with its history, threads with what they
      read, deliveries with the index of the value, and losses with their causes. */
  ghost predicate TableRight(callbacks: map<nat, nat>, events: seq<Event>) {
    && (forall i :: CallbackIn(callbacks, i) == CallbackAfter(events, i))
    && (forall i :: CallbackIn(callbacks, i) != 0 ==> Registered(i, CallbackIn(callbacks, i)) in events)
  }

  ghost predicate SlotsRight(s: State) {
    forall p :: p in s.slots ==> s.slots[p] < |s.origins| && s.origins[s.slots[p]].slot == p
                                 && s.origins[s.slots[p]].time <= |s.events|
  }

  ghost predicate PcsRight(s: State) {
    forall t :: 0 <= t < |s.pcs| ==> RightPc(s, s.pcs[t])
  }

  ghost predicate DeliveriesRight(s: State) {
    forall k :: 0 <= k < |s.delivered| ==>
      && s.delivered[k].data < |s.origins| && s.delivered[k].callback != 0
      && Registered(s.origins[s.delivered[k].data].slot.index, s.delivered[k].callback) in s.events
  }

  ghost predicate LossesRight(s: State) {
    forall x :: x in s.places && s.places[x].Dropped? ==> x < |s.origins| && Caused(s, x, s.places[x].cause)
  }

  ghost predicate Rightful(s: State) {
    TableRight(s.callbacks, s.events) && SlotsRight(s) && PcsRight(s) && DeliveriesRight(s) && LossesRight(s)
  }

  /** What is right stays right while values and events are added. */
  lemma HistoryGrows(s: State, s': State)
    requires s.origins <= s'.origins && s.events <= s'.events
    ensures forall pc :: RightPc(s, pc) ==> RightPc(s', pc)
    ensures forall x, cause :: 0 <= x < |s.origins| && Caused(s, x, cause) ==> Caused(s', x, cause)
  {
    hide CallbackAfter;
    forall pc | RightPc(s, pc) ensures RightPc(s', pc) {
      PcStaysRight(s, s', pc);
    }
    forall x, cause | 0 <= x < |s.origins| && Caused(s, x, cause) ensures Caused(s', x, cause) {
      CauseStays(s, s', x, cause);
    }
  }

  lemma PcStaysRight(s: State, s': State, pc: Pc)
    requires s.origins <= s'.origins && s.events <= s'.events && RightPc(s, pc)
    ensures RightPc(s', pc)
  {
    hide CallbackAfter;
    if (pc.TearingWith? || pc.TearCall?) && pc.callback == 0 {
      assert s'.events[..pc.read] == s.events[..pc.read];
    }
  }

  lemma CauseStays(s: State, s': State, x: nat, cause: Cause)
    requires s.origins <= s'.origins && s.events <= s'.events && x < |s.origins| && Caused(s, x, cause)
    ensures Caused(s', x, cause)
  {
    hide CallbackAfter;
    if cause.NoCallback? {
      assert s'.events[..cause.read] == s.events[..cause.read];
    }
  }

  /** A step that changes neither the table nor the history, and moves one thread. */
  lemma MoveIsRightful(s: State, t: nat, pc: Pc)
    requires Rightful(s) && t < |s.pcs| && RightPc(s, pc)
    ensures Rightful(Move(s, t, pc))
  {
    hide RightPc, Caused, CallbackAfter;
    HistoryGrows(s, Move(s, t, pc));
  }

  lemma TakeIsRightful(s: State, t: nat, slot: Slot, empty: Pc, full: nat -> Pc)
    requires Rightful(s) && t < |s.pcs| && RightPc(s, empty)
    requires forall x: nat :: x < |s.origins| && s.origins[x].slot == slot ==> RightPc(s, full(x))
    ensures Rightful(Take(s, t, slot, empty, full))
  {
    hide RightPc, Caused, CallbackAfter;
    HistoryGrows(s, Take(s, t, slot, empty, full));
  }

  lemma DeliverIsRightful(s: State, t: nat, callback: nat, x: nat, pc: Pc)
    requires Rightful(s) && t < |s.pcs| && RightPc(s, pc)
    requires x < |s.origins| && callback != 0 && Registered(s.origins[x].slot.index, callback) in s.events
    ensures Rightful(Deliver(s, t, callback, x, pc))
  {
    hide RightPc, Caused, CallbackAfter;
    HistoryGrows(s, Deliver(s, t, callback, x, pc));
  }

  lemma ForgetIsRightful(s: State, t: nat, read: nat, x: nat, pc: Pc)
    requires Rightful(s) && t < |s.pcs| && RightPc(s, pc) && x < |s.origins| && Caused(s, x, NoCallback(read))
    ensures Rightful(Forget(s, t, read, x, pc))
  {
    hide RightPc, Caused, CallbackAfter;
    HistoryGrows(s, Forget(s, t, read, x, pc));
  }

  lemma StoreIsRightful(s: State, slot: Slot)
    requires Rightful(s)
    ensures Rightful(Store(s, slot))
  {
    hide RightPc, Caused, CallbackAfter;
    var r := Store(s, slot);
    HistoryGrows(s, r);
    if slot in s.slots {
      var x := s.slots[slot];
      assert Caused(r, x, Overwritten(|s.origins|)) by { OverwrittenBy(s, slot); }
    }
  }

  lemma OverwrittenBy(s: State, slot: Slot)
    requires SlotsRight(s) && slot in s.slots
    ensures s.slots[slot] < |s.origins| && Caused(Store(s, slot), s.slots[slot], Overwritten(|s.origins|))
  {
  }

  lemma ClearIsRightful(s: State, slot: Slot)
    requires Rightful(s)
    ensures Rightful(Clear(s, slot))
  {
    hide RightPc, Caused;
    var r := Clear(s, slot);
    HistoryGrows(s, r);
    EventIsInert(s, Cleared(slot));
    if slot in s.slots {
      assert Caused(r, s.slots[slot], ByClear(|s.events|)) by { ClearedBy(s, slot); }
    }
    hide CallbackAfter;
  }

  lemma ClearedBy(s: State, slot: Slot)
    requires SlotsRight(s) && slot in s.slots
    ensures s.slots[slot] < |s.origins| && Caused(Clear(s, slot), s.slots[slot], ByClear(|s.events|))
  {
  }

  lemma EventIsInert(s: State, e: Event)
    ensures e.Cleared? || e.ReadNone? ==> forall i :: CallbackAfter(s.events + [e], i) == CallbackAfter(s.events, i)
  {
    assert (s.events + [e])[..|s.events|] == s.events;
  }

  lemma TableAfter(callbacks: map<nat, nat>, events: seq<Event>, index: nat, callback: nat)
    requires TableRight(callbacks, events)
    ensures TableRight(callbacks[index := callback], events + [Registered(index, callback)])
    ensures TableRight(callbacks - {index}, events + [Freed(index)])
  {
    EntryAfter(callbacks, callbacks[index := callback], events, Registered(index, callback));
    EntryAfter(callbacks, callbacks - {index}, events, Freed(index));
  }

  lemma EntryAfter(callbacks: map<nat, nat>, callbacks': map<nat, nat>, events: seq<Event>, e: Event)
    requires TableRight(callbacks, events) && (e.Registered? || e.Freed?)
    requires callbacks' == if e.Registered? then callbacks[e.index := e.callback] else callbacks - {e.index}
    ensures TableRight(callbacks', events + [e])
  {
    var events' := events + [e];
    assert events'[..|events|] == events && events'[|events|] == e;
    forall i: nat
      ensures CallbackIn(callbacks', i) == CallbackAfter(events', i)
      ensures CallbackIn(callbacks', i) != 0 ==> Registered(i, CallbackIn(callbacks', i)) in events'
    {
      var c := CallbackIn(callbacks, i);
      assert c == CallbackAfter(events, i) && (c != 0 ==> Registered(i, c) in events);
      if i == e.index {
        assert e in events';
      } else {
        assert CallbackIn(callbacks', i) == c;
      }
    }
  }

  lemma RegisterIsRightful(s: State, index: nat, callback: nat)
    requires Rightful(s)
    ensures Rightful(Register(s, index, callback)) && Rightful(Unregister(s, index))
  {
    hide RightPc, Caused, TableRight;
    TableAfter(s.callbacks, s.events, index, callback);
    HistoryGrows(s, Register(s, index, callback));
    HistoryGrows(s, Unregister(s, index));
  }

  lemma ReadIsRightful(s: State, t: nat, teb: nat, index: nat)
    requires Rightful(s) && t < |s.pcs|
    ensures Rightful(Read(s, t, teb, index))
  {
    hide CallbackAfter, Caused;
    var r := Read(s, t, teb, index);
    HistoryGrows(s, r);
    EventIsInert(s, ReadNone(Slot(teb, index)));
    assert r.events[..|s.events|] == s.events;
    assert RightPc(r, r.pcs[t]) by { assert CallbackIn(s.callbacks, index) == CallbackAfter(s.events, index); }
    hide RightPc;
  }

  lemma PcIsRight(s: State, t: nat)
    requires Rightful(s) && t < |s.pcs|
    ensures RightPc(s, s.pcs[t])
  {
  }

  lemma StepIsRightful(s: State, t: nat, c: Choice)
    requires Rightful(s)
    ensures Rightful(Step(s, t, c))
  {
    hide Take, Drop, Store, Clear, Deliver, Forget, Move, Read, Rightful, CallbackAfter;
    if t < |s.pcs| {
      PcIsRight(s, t);
      match s.pcs[t]
      case Idle => StepIdleIsRightful(s, t, c);
      case Freeing(index, callback, teb) =>
        TakeIsRightful(s, t, Slot(teb, index), Walk(index, callback, c), (x: nat) => FreeCall(index, callback, teb, x));
      case FreeCall(index, callback, teb, x) => DeliverIsRightful(s, t, callback, x, Walk(index, callback, c));
      case Tearing(teb, index) =>
        if index < FLS_SLOTS {
          ReadIsRightful(s, t, teb, index);
        } else {
          MoveIsRightful(s, t, Idle);
        }
      case TearingWith(teb, index, callback, read) =>
        TakeIsRightful(s, t, Slot(teb, index), Tearing(teb, index + 1),
                       (x: nat) => TearCall(teb, index, callback, read, x));
      case TearCall(teb, index, callback, read, x) =>
        if callback != 0 {
          DeliverIsRightful(s, t, callback, x, Tearing(teb, index + 1));
        } else {
          ForgetIsRightful(s, t, read, x, Tearing(teb, index + 1));
        }
    }
  }

  lemma StepIdleIsRightful(s: State, t: nat, c: Choice)
    requires Rightful(s) && t < |s.pcs| && s.pcs[t] == Idle
    ensures Rightful(StepIdle(s, t, c))
  {
    hide Drop, Store, Clear, Rightful, CallbackAfter;
    match c
    case SetValue(slot) => StoreIsRightful(s, slot);
    case ClearValue(slot) => ClearIsRightful(s, slot);
    case Alloc(index, callback, teb) =>
      RegisterIsRightful(s, index, callback);
      ClearIsRightful(Register(s, index, callback), Slot(teb, index));
    case Free(index, teb) =>
      RegisterIsRightful(s, index, 0);
      CallbackWasRegistered(s, index);
      if CallbackIn(s.callbacks, index) != 0 {
        MoveIsRightful(Unregister(s, index), t, Freeing(index, CallbackIn(s.callbacks, index), teb));
      }
    case Tear(teb) => MoveIsRightful(s, t, Tearing(teb, 0));
    case Next(_) =>
  }

  lemma CallbackWasRegistered(s: State, index: nat)
    requires Rightful(s)
    ensures CallbackIn(s.callbacks, index) != 0 ==>
              Registered(index, CallbackIn(s.callbacks, index)) in Unregister(s, index).events
  {
  }

  // ---------------------------------------------------------------- runs

  /** The state after these turns, each a thread and what it chooses. */
  function Run(threads: nat, turns: seq<(nat, Choice)>): State {
    if turns == [] then Start(threads)
    else Step(Run(threads, turns[..|turns| - 1]), turns[|turns| - 1].0, turns[|turns| - 1].1)
  }

  lemma {:induction false} RunKeepsInv(threads: nat, turns: seq<(nat, Choice)>)
    ensures var s := Run(threads, turns); Consistent(s) && Complete(s) && Rightful(s)
  {
    hide Step;
    if turns == [] {
      StartIsConsistent(threads);
    } else {
      hide Consistent, Complete, Rightful;
      var init, last := turns[..|turns| - 1], turns[|turns| - 1];
      RunKeepsInv(threads, init);
      StepConserves(Run(threads, init), last.0, last.1);
      StepIsRightful(Run(threads, init), last.0, last.1);
    }
  }

  lemma StartIsConsistent(threads: nat)
    ensures Consistent(Start(threads)) && Complete(Start(threads)) && Rightful(Start(threads))
  {
  }

  /** However FlsFree and teardown interleave: no value is delivered twice, none is delivered while it is
      still in a slot, and each goes to a callback its own index was allocated with. */
  lemma DeliveredAtMostOnce(threads: nat, turns: seq<(nat, Choice)>)
    ensures var s := Run(threads, turns);
            && (forall i, j :: 0 <= i < j < |s.delivered| ==> s.delivered[i].data != s.delivered[j].data)
            && (forall i, p :: 0 <= i < |s.delivered| && p in s.slots ==> s.delivered[i].data != s.slots[p])
            && (forall i :: 0 <= i < |s.delivered| ==>
                  s.delivered[i].data < |s.origins| && s.delivered[i].callback != 0 &&
                  Registered(s.origins[s.delivered[i].data].slot.index, s.delivered[i].callback) in s.events)
  {
    RunKeepsInv(threads, turns);
    hide Run;
  }

  ghost predicate Stored(s: State, x: nat) {
    exists p :: p in s.slots && s.slots[p] == x
  }

  ghost predicate Called(s: State, x: nat) {
    exists k :: 0 <= k < |s.delivered| && s.delivered[k].data == x
  }

  /** The value is lost, for a reason that can be pointed at. */
  ghost predicate Lost(s: State, x: nat)
    requires x < |s.origins|
  {
    exists cause :: Caused(s, x, cause) && x in s.places && s.places[x] == Dropped(cause)
  }

  /** Once every thread is idle, each value ever stored is in the slot it was stored at, or was delivered, or
      is lost: overwritten by a later value of the same slot, cleared after it was stored, or taken by a
      teardown of its TEB that had read the table while its index had no callback.  It is exactly one. */
  lemma NothingGetsLost(threads: nat, turns: seq<(nat, Choice)>, x: nat)
    requires var s := Run(threads, turns);
             x < |s.origins| && forall t :: 0 <= t < |s.pcs| ==> s.pcs[t] == Idle
    ensures var s := Run(threads, turns);
            && (Stored(s, x) || Called(s, x) || Lost(s, x))
            && !(Stored(s, x) && Called(s, x)) && !(Stored(s, x) && Lost(s, x)) && !(Called(s, x) && Lost(s, x))
            && (Stored(s, x) ==> s.origins[x].slot in s.slots && s.slots[s.origins[x].slot] == x)
  {
    RunKeepsInv(threads, turns);
    hide Run;
    var s := Run(threads, turns);
    PlaceDecides(s, x);
  }

  lemma PlaceDecides(s: State, x: nat)
    requires Consistent(s) && Complete(s) && Rightful(s) && x < |s.origins|
    requires forall t :: 0 <= t < |s.pcs| ==> s.pcs[t] == Idle
    ensures Stored(s, x) <==> x in s.places && s.places[x].InSlot?
    ensures Called(s, x) <==> x in s.places && s.places[x].Delivered?
    ensures Lost(s, x) <==> x in s.places && s.places[x].Dropped?
    ensures x in s.places && !s.places[x].InHand?
    ensures Stored(s, x) ==> s.origins[x].slot in s.slots && s.slots[s.origins[x].slot] == x
  {
    hide Caused, RightPc, TableRight, PcsRight, DeliveriesRight;
    assert x in s.places && Really(s, x, s.places[x]);
    if s.places[x].Delivered? {
      assert s.delivered[s.places[x].call].data == x;
    }
  }

  // ---------------------------------------------------------------- a race

  /** An index is allocated with a callback, and a value stored at it in TEB 1.  A thread frees the index and
      has the callback in hand when another tears down TEB 1: that one finds no callback, and takes the
      value; when the first gets to TEB 1, nothing is left.  The value is never delivered. */
  const RACE: seq<(nat, Choice)> := [
    (0, Alloc(0, 7, 0)), (0, SetValue(Slot(1, 0))), (0, Free(0, 0)),
    (1, Tear(1)), (1, Next(None)), (1, Next(None)), (1, Next(None)),
    (0, Next(Some(1))), (0, Next(None))]

  lemma RunNext(threads: nat, turns: seq<(nat, Choice)>, n: nat)
    requires n < |turns|
    ensures Run(threads, turns[..n + 1]) == Step(Run(threads, turns[..n]), turns[n].0, turns[n].1)
  {
    assert turns[..n + 1][..n] == turns[..n];
  }

  lemma FreeAndTeardownLoseAValue()
    ensures var s := Run(2, RACE);
            && s.delivered == [] && s.slots == map[] && |s.pcs| == 2 && s.pcs[0] == Idle
            && |s.origins| == 1 && 0 in s.places && s.places[0] == Dropped(NoCallback(3))
            && s.events != [] && s.events[0] == Registered(0, 7)
  {
    hide Run, Step;
    var s1 := StoredUnderCallback();
    assert RACE[2] == (0, Free(0, 0)) && RACE[3] == (1, Tear(1)) && RACE[4] == (1, Next(None));
    var s2 := ReadMeanwhile(s1);
    var s3 := TornDownMeanwhile(s2);
    WalkFindsNothing(s3);
  }

  /** The first two turns. */
  lemma StoredUnderCallback() returns (s: State)
    ensures s == Run(2, RACE[..2])
    ensures s == State(map[Slot(1, 0) := 0], map[0 := 7], [Idle, Idle], [], map[0 := InSlot(Slot(1, 0))],
                       [Origin(Slot(1, 0), 2)], [Registered(0, 7), Cleared(Slot(0, 0))])
  {
    hide Run;
    FirstRun(2, RACE);
    RunNext(2, RACE, 0);
    RunNext(2, RACE, 1);
    var s1 := Step(Start(2), 0, Alloc(0, 7, 0));
    assert s1 == State(map[], map[0 := 7], [Idle, Idle], [], map[], [], [Registered(0, 7), Cleared(Slot(0, 0))]);
    s := Step(s1, 0, SetValue(Slot(1, 0)));
  }

  /** FlsFree takes the callback; the teardown of TEB 1 reads none. */
  lemma ReadMeanwhile(s: State) returns (s': State)
    requires s == Run(2, RACE[..2])
    requires s == State(map[Slot(1, 0) := 0], map[0 := 7], [Idle, Idle], [], map[0 := InSlot(Slot(1, 0))],
                        [Origin(Slot(1, 0), 2)], [Registered(0, 7), Cleared(Slot(0, 0))])
    ensures s' == Run(2, RACE[..5])
    ensures s' == s.(callbacks := map[], pcs := [Freeing(0, 7, 0), TearingWith(1, 0, 0, 3)],
                     events := [Registered(0, 7), Cleared(Slot(0, 0)), Freed(0), ReadNone(Slot(1, 0))])
  {
    hide Run;
    RunNext(2, RACE, 2);
    RunNext(2, RACE, 3);
    RunNext(2, RACE, 4);
    var s3 := Step(s, 0, Free(0, 0));
    assert s3.pcs == [Freeing(0, 7, 0), Idle] && s3.callbacks == map[];
    var s4 := Step(s3, 1, Tear(1));
    assert s4.pcs == [Freeing(0, 7, 0), Tearing(1, 0)];
    s' := Step(s4, 1, Next(None));
  }

  /** It takes the value, and has nobody to give it to. */
  lemma TornDownMeanwhile(s: State) returns (s': State)
    requires s == Run(2, RACE[..5]) && s.slots == map[Slot(1, 0) := 0] && s.places == map[0 := InSlot(Slot(1, 0))]
    requires s.pcs == [Freeing(0, 7, 0), TearingWith(1, 0, 0, 3)]
    ensures s' == Run(2, RACE[..7])
    ensures s' == s.(slots := map[], pcs := [Freeing(0, 7, 0), Tearing(1, 1)],
                     places := map[0 := Dropped(NoCallback(3))])
  {
    hide Run;
    RunNext(2, RACE, 5);
    RunNext(2, RACE, 6);
    var s6 := Step(s, 1, Next(None));
    assert s6.pcs == [Freeing(0, 7, 0), TearCall(1, 0, 0, 3, 0)];
    s' := Step(s6, 1, Next(None));
  }

  /** The walk of FlsFree gets to TEB 1 too late. */
  lemma WalkFindsNothing(s: State)
    requires s == Run(2, RACE[..7]) && s.slots == map[] && s.pcs == [Freeing(0, 7, 0), Tearing(1, 1)]
    ensures Run(2, RACE) == s.(pcs := [Idle, Tearing(1, 1)])
  {
    hide Run;
    RunNext(2, RACE, 7);
    RunNext(2, RACE, 8);
    assert RACE[..9] == RACE;
    var s8 := Step(s, 0, Next(Some(1)));
    assert s8 == s.(pcs := [Freeing(0, 7, 1), Tearing(1, 1)]);
  }

  lemma FirstRun(threads: nat, turns: seq<(nat, Choice)>)
    ensures Run(threads, turns[..0]) == Start(threads)
  {
  }
}
