/** What a whole call leaves behind in the machine of FlsExchange, where other threads keep away from the slots
    and callbacks it works on: a teardown delivers every value of its TEB that has a callback, and FlsFree every
    value at its index in the TEBs it visits. */
module FlsExchangeCalls {
  import opened Wrappers
  import opened FlsExchange

  function RunFrom(s: State, turns: seq<(nat, Choice)>): State {
    if turns == [] then s
    else Step(RunFrom(s, turns[..|turns| - 1]), turns[|turns| - 1].0, turns[|turns| - 1].1)
  }

  lemma RunNext(s: State, turns: seq<(nat, Choice)>, k: nat)
    requires k < |turns|
    ensures RunFrom(s, turns[..k + 1]) == Step(RunFrom(s, turns[..k]), turns[k].0, turns[k].1)
  {
    assert turns[..k + 1][..k] == turns[..k];
  }

  /** The same at this slot. */
  ghost predicate SameAt(slots: map<Slot, nat>, slots': map<Slot, nat>, slot: Slot) {
    (slot in slots <==> slot in slots') && (slot in slots ==> slots'[slot] == slots[slot])
  }

  /** The slot is empty, and what stood there has been delivered if there was a callback. */
  ghost predicate Emptied(s: State, was: map<Slot, nat>, slot: Slot, callback: nat) {
    slot !in s.slots && (slot in was && callback != 0 ==> Call(callback, was[slot]) in s.delivered)
  }

  /** A step of one thread makes calls, takes none back, and moves nobody else. */
  ghost predicate OnlyMoves(s: State, s': State, t: nat) {
    && s.delivered <= s'.delivered && |s'.pcs| == |s.pcs|
    && forall i :: 0 <= i < |s.pcs| && i != t ==> s'.pcs[i] == s.pcs[i]
  }

  lemma DeliveredGrows(s: State, t: nat, c: Choice)
    ensures OnlyMoves(s, Step(s, t, c), t)
  {
    hide OnlyMoves, StepIdle, Take, Deliver, Forget, Read, Move;
    if t < |s.pcs| {
      match s.pcs[t] {
        case Idle => IdleGrows(s, t, c);
        case Freeing(index, callback, teb) =>
          TakeGrows(s, t, Slot(teb, index), Walk(index, callback, c), (x: nat) => FreeCall(index, callback, teb, x));
        case FreeCall(index, callback, teb, x) => CallGrows(s, t, callback, x, Walk(index, callback, c));
        case Tearing(teb, index) => ReadGrows(s, t, teb, index);
        case TearingWith(teb, index, callback, read) =>
          TakeGrows(s, t, Slot(teb, index), Tearing(teb, index + 1),
                    (x: nat) => TearCall(teb, index, callback, read, x));
        case TearCall(teb, index, callback, read, x) =>
          CallGrows(s, t, callback, x, Tearing(teb, index + 1));
          ForgetGrows(s, t, read, x, Tearing(teb, index + 1));
      }
    } else {
      NoneGrows(s, t);
    }
  }

  lemma NoneGrows(s: State, t: nat)
    ensures OnlyMoves(s, s, t)
  {
  }

  lemma IdleGrows(s: State, t: nat, c: Choice)
    requires t < |s.pcs|
    ensures OnlyMoves(s, StepIdle(s, t, c), t)
  {
  }

  lemma TakeGrows(s: State, t: nat, slot: Slot, empty: Pc, full: nat -> Pc)
    requires t < |s.pcs|
    ensures OnlyMoves(s, Take(s, t, slot, empty, full), t)
  {
  }

  lemma CallGrows(s: State, t: nat, callback: nat, x: nat, pc: Pc)
    requires t < |s.pcs|
    ensures OnlyMoves(s, Deliver(s, t, callback, x, pc), t)
  {
  }

  lemma ForgetGrows(s: State, t: nat, read: nat, x: nat, pc: Pc)
    requires t < |s.pcs|
    ensures OnlyMoves(s, Forget(s, t, read, x, pc), t)
  {
  }

  lemma ReadGrows(s: State, t: nat, teb: nat, index: nat)
    requires t < |s.pcs|
    ensures OnlyMoves(s, Read(s, t, teb, index), t) && OnlyMoves(s, Move(s, t, Idle), t)
  {
  }

  lemma StillEmptied(s: State, t: nat, c: Choice, was: map<Slot, nat>, slot: Slot, callback: nat)
    requires Emptied(s, was, slot, callback) && slot !in Step(s, t, c).slots
    ensures Emptied(Step(s, t, c), was, slot, callback)
  {
    hide Step;
    DeliveredGrows(s, t, c);
  }

  // ---------------------------------------------------------------- teardown

  /** How far a teardown of the TEB has come; `was` and `callbacks` are the slots and callbacks at its start. */
  ghost predicate TornUpTo(s: State, teb: nat, i: nat, from: nat, was: map<Slot, nat>, callbacks: map<nat, nat>) {
    && s.callbacks == callbacks
    && (forall j: nat :: j < i ==> Emptied(s, was, Slot(teb, j), CallbackIn(callbacks, j)))
    && (forall j: nat :: j >= from ==> SameAt(was, s.slots, Slot(teb, j)))
  }

  ghost predicate TearingDown(s: State, pc: Pc, teb: nat, was: map<Slot, nat>, callbacks: map<nat, nat>) {
    match pc
    case Tearing(x, i) => x == teb && i <= FLS_SLOTS && TornUpTo(s, teb, i, i, was, callbacks)
    case TearingWith(x, i, callback, _) =>
      && x == teb && i < FLS_SLOTS && callback == CallbackIn(callbacks, i)
      && TornUpTo(s, teb, i, i, was, callbacks)
    case TearCall(x, i, callback, _, data) =>
      && x == teb && i < FLS_SLOTS && callback == CallbackIn(callbacks, i)
      && TornUpTo(s, teb, i, i + 1, was, callbacks)
      && Slot(teb, i) !in s.slots && Slot(teb, i) in was && was[Slot(teb, i)] == data
    case _ => false
  }

  lemma TearStep(s: State, t: nat, c: Choice, teb: nat, was: map<Slot, nat>, callbacks: map<nat, nat>)
    requires t < |s.pcs| && TearingDown(s, s.pcs[t], teb, was, callbacks)
    ensures var s' := Step(s, t, c);
            && t < |s'.pcs|
            && if s'.pcs[t].Idle? then TornUpTo(s', teb, FLS_SLOTS, FLS_SLOTS, was, callbacks)
               else TearingDown(s', s'.pcs[t], teb, was, callbacks)
  {
    match s.pcs[t] {
      case Tearing(_, i) => ReadStep(s, t, c, teb, i, was, callbacks);
      case TearingWith(_, i, callback, read) => TakeStep(s, t, c, teb, i, callback, read, was, callbacks);
      case TearCall(_, i, callback, read, x) => CallStep(s, t, c, teb, i, callback, read, x, was, callbacks);
      case _ =>
    }
  }

  lemma ReadStep(s: State, t: nat, c: Choice, teb: nat, i: nat, was: map<Slot, nat>, callbacks: map<nat, nat>)
    requires t < |s.pcs| && s.pcs[t] == Tearing(teb, i) && TearingDown(s, s.pcs[t], teb, was, callbacks)
    ensures var s' := Step(s, t, c);
            if i < FLS_SLOTS then TearingDown(s', s'.pcs[t], teb, was, callbacks)
            else s'.pcs[t].Idle? && TornUpTo(s', teb, FLS_SLOTS, FLS_SLOTS, was, callbacks)
  {
    var s' := Step(s, t, c);
    assert s'.slots == s.slots && s'.delivered == s.delivered && s'.callbacks == s.callbacks;
    TornAlike(s, s', teb, i, i, was, callbacks);
  }

  lemma TornAlike(s: State, s': State, teb: nat, i: nat, from: nat, was: map<Slot, nat>, callbacks: map<nat, nat>)
    requires TornUpTo(s, teb, i, from, was, callbacks)
    requires s'.slots == s.slots && s'.delivered == s.delivered && s'.callbacks == s.callbacks
    ensures TornUpTo(s', teb, i, from, was, callbacks)
  {
    forall j: nat | j < i
      ensures Emptied(s', was, Slot(teb, j), CallbackIn(callbacks, j))
    {
      assert Emptied(s, was, Slot(teb, j), CallbackIn(callbacks, j));
    }
  }

  lemma TakeStep(s: State, t: nat, c: Choice, teb: nat, i: nat, callback: nat, read: nat,
                 was: map<Slot, nat>, callbacks: map<nat, nat>)
    requires t < |s.pcs| && s.pcs[t] == TearingWith(teb, i, callback, read)
    requires TearingDown(s, s.pcs[t], teb, was, callbacks)
    ensures TearingDown(Step(s, t, c), Step(s, t, c).pcs[t], teb, was, callbacks)
  {
    var s' := Step(s, t, c);
    assert s'.delivered == s.delivered && s'.callbacks == s.callbacks && s'.slots == s.slots - {Slot(teb, i)};
    assert SameAt(was, s.slots, Slot(teb, i));
    forall j: nat | j < i
      ensures Emptied(s', was, Slot(teb, j), CallbackIn(callbacks, j))
    {
      assert Emptied(s, was, Slot(teb, j), CallbackIn(callbacks, j));
    }
    forall j: nat | j > i
      ensures SameAt(was, s'.slots, Slot(teb, j))
    {
      assert SameAt(was, s.slots, Slot(teb, j));
    }
    assert Slot(teb, i) !in was ==> Emptied(s', was, Slot(teb, i), callback);
  }

  lemma CallStep(s: State, t: nat, c: Choice, teb: nat, i: nat, callback: nat, read: nat, x: nat,
                 was: map<Slot, nat>, callbacks: map<nat, nat>)
    requires t < |s.pcs| && s.pcs[t] == TearCall(teb, i, callback, read, x)
    requires TearingDown(s, s.pcs[t], teb, was, callbacks)
    ensures TearingDown(Step(s, t, c), Step(s, t, c).pcs[t], teb, was, callbacks)
  {
    var s' := Step(s, t, c);
    assert s'.slots == s.slots && s'.callbacks == s.callbacks;
    assert s'.delivered == if callback != 0 then s.delivered + [Call(callback, x)] else s.delivered;
    forall j: nat | j < i
      ensures Emptied(s', was, Slot(teb, j), CallbackIn(callbacks, j))
    {
      assert Emptied(s, was, Slot(teb, j), CallbackIn(callbacks, j));
    }
    assert Emptied(s', was, Slot(teb, i), callback);
    forall j: nat | j >= i + 1
      ensures SameAt(was, s'.slots, Slot(teb, j))
    {
      assert SameAt(was, s.slots, Slot(teb, j));
    }
  }

  /** Another thread's turn leaves the TEB and the callbacks alone. */
  ghost predicate KeepsAway(s: State, s': State, teb: nat) {
    s'.callbacks == s.callbacks && forall j: nat :: SameAt(s.slots, s'.slots, Slot(teb, j))
  }

  lemma OthersTear(s: State, t: nat, u: nat, c: Choice, teb: nat, was: map<Slot, nat>, callbacks: map<nat, nat>)
    requires t < |s.pcs| && u != t && TearingDown(s, s.pcs[t], teb, was, callbacks)
    requires KeepsAway(s, Step(s, u, c), teb)
    ensures var s' := Step(s, u, c);
            t < |s'.pcs| && TearingDown(s', s.pcs[t], teb, was, callbacks) && s'.pcs[t] == s.pcs[t]
  {
    hide Step;
    DeliveredGrows(s, u, c);
    forall j: nat | Emptied(s, was, Slot(teb, j), CallbackIn(callbacks, j))
      ensures Emptied(Step(s, u, c), was, Slot(teb, j), CallbackIn(callbacks, j))
    {
      assert SameAt(s.slots, Step(s, u, c).slots, Slot(teb, j));
      StillEmptied(s, u, c, was, Slot(teb, j), CallbackIn(callbacks, j));
    }
    forall j: nat | SameAt(was, s.slots, Slot(teb, j))
      ensures SameAt(was, Step(s, u, c).slots, Slot(teb, j))
    {
      assert SameAt(s.slots, Step(s, u, c).slots, Slot(teb, j));
    }
  }

  /** From turn 1 on thread `t` is within its teardown, and the others keep away from the TEB. */
  ghost predicate AloneWith(s: State, turns: seq<(nat, Choice)>, t: nat, teb: nat) {
    && (forall k :: 1 <= k < |turns| ==> t < |RunFrom(s, turns[..k]).pcs| && !RunFrom(s, turns[..k]).pcs[t].Idle?)
    && (forall k :: 0 <= k < |turns| && turns[k].0 != t ==>
          KeepsAway(RunFrom(s, turns[..k]), RunFrom(s, turns[..k + 1]), teb))
  }

  lemma {:induction false} TearingUpTo(s: State, turns: seq<(nat, Choice)>, t: nat, teb: nat, k: nat)
    requires t < |s.pcs| && s.pcs[t].Idle? && 1 <= k < |turns|
    requires turns[0] == (t, Tear(teb)) && AloneWith(s, turns, t, teb)
    ensures var s' := RunFrom(s, turns[..k]); t < |s'.pcs| && TearingDown(s', s'.pcs[t], teb, s.slots, s.callbacks)
  {
    hide Step, TearingDown, KeepsAway, RunFrom;
    RunNext(s, turns, k - 1);
    if k == 1 {
      TearBegins(s, turns, t, teb);
    } else {
      TearingUpTo(s, turns, t, teb, k - 1);
      var before, turn := RunFrom(s, turns[..k - 1]), turns[k - 1];
      if turn.0 == t {
        TearStep(before, t, turn.1, teb, s.slots, s.callbacks);
      } else {
        assert KeepsAway(before, RunFrom(s, turns[..k - 1 + 1]), teb);
        OthersTear(before, t, turn.0, turn.1, teb, s.slots, s.callbacks);
      }
    }
  }

  lemma TearBegins(s: State, turns: seq<(nat, Choice)>, t: nat, teb: nat)
    requires t < |s.pcs| && s.pcs[t].Idle? && turns != [] && turns[0] == (t, Tear(teb))
    ensures var s' := RunFrom(s, turns[..1]); t < |s'.pcs| && TearingDown(s', s'.pcs[t], teb, s.slots, s.callbacks)
  {
    RunNext(s, turns, 0);
    assert RunFrom(s, turns[..0]) == s;
  }

  /** LdkpInvokeFlsCallback, from the call to the return: every slot of the TEB is empty, and every value that was
      in one has been handed to the callback of its index, if there is one. */
  lemma TeardownCompletes(s: State, turns: seq<(nat, Choice)>, t: nat, teb: nat)
    requires t < |s.pcs| && s.pcs[t].Idle? && |turns| > 1
    requires turns[0] == (t, Tear(teb)) && AloneWith(s, turns, t, teb)
    requires t < |RunFrom(s, turns).pcs| && RunFrom(s, turns).pcs[t].Idle?
    ensures forall i: nat :: i < FLS_SLOTS ==>
              Emptied(RunFrom(s, turns), s.slots, Slot(teb, i), CallbackIn(s.callbacks, i))
  {
    hide Step, TearingDown, KeepsAway, RunFrom;
    var k := |turns| - 1;
    var before, turn := RunFrom(s, turns[..k]), turns[k];
    TearingUpTo(s, turns, t, teb, k);
    RunNext(s, turns, k);
    assert turns[..k + 1] == turns;
    if turn.0 == t {
      TearStep(before, t, turn.1, teb, s.slots, s.callbacks);
    } else {
      assert KeepsAway(before, RunFrom(s, turns[..k + 1]), teb);
      OthersTear(before, t, turn.0, turn.1, teb, s.slots, s.callbacks);
    }
  }

  /** A teardown ends after three steps of its own for each slot, and two more. */
  function StepsLeft(pc: Pc): nat {
    match pc
    case Tearing(_, i) => if i < FLS_SLOTS then 3 * (FLS_SLOTS - i) + 1 else 1
    case TearingWith(_, i, _, _) => if i < FLS_SLOTS then 3 * (FLS_SLOTS - i) else 3
    case TearCall(_, i, _, _, _) => if i < FLS_SLOTS then 3 * (FLS_SLOTS - i) - 1 else 2
    case _ => 0
  }

  lemma TeardownRunsOut(s: State, t: nat, c: Choice)
    requires t < |s.pcs| && (s.pcs[t].Tearing? || s.pcs[t].TearingWith? || s.pcs[t].TearCall?)
    ensures t < |Step(s, t, c).pcs| && StepsLeft(Step(s, t, c).pcs[t]) < StepsLeft(s.pcs[t])
    ensures Step(s, t, c).pcs[t].Idle? || StepsLeft(Step(s, t, c).pcs[t]) > 0
  {
  }

  // ---------------------------------------------------------------- FlsFree

  /** The TEBs that a walk of thread `t` has come to. */
  ghost function Visited(s: State, turns: seq<(nat, Choice)>, t: nat): set<nat> {
    if turns == [] then {}
    else
      var now := RunFrom(s, turns);
      Visited(s, turns[..|turns| - 1], t) + if t < |now.pcs| && now.pcs[t].Freeing? then {now.pcs[t].teb} else {}
  }

  /** How far a walk for the index has come; `was` are the slots at its start. */
  ghost predicate WalkedUpTo(s: State, pc: Pc, index: nat, callback: nat, was: map<Slot, nat>, visited: set<nat>) {
    && (forall teb: nat :: teb !in visited ==> SameAt(was, s.slots, Slot(teb, index)))
    && (forall teb: nat :: teb in visited && !(pc.FreeCall? && pc.teb == teb) ==>
          || Emptied(s, was, Slot(teb, index), callback)
          || (pc == Freeing(index, callback, teb) && SameAt(was, s.slots, Slot(teb, index))))
    && match pc
       case Freeing(x, y, teb) => x == index && y == callback && teb in visited
       case FreeCall(x, y, teb, data) =>
         && x == index && y == callback && teb in visited
         && Slot(teb, index) !in s.slots && Slot(teb, index) in was && was[Slot(teb, index)] == data
       case Idle => true
       case _ => false
  }

  lemma WalkStep(s: State, t: nat, c: Choice, index: nat, callback: nat, was: map<Slot, nat>, visited: set<nat>)
    requires t < |s.pcs| && !s.pcs[t].Idle? && WalkedUpTo(s, s.pcs[t], index, callback, was, visited)
    ensures var s' := Step(s, t, c);
            && t < |s'.pcs|
            && var next := if s'.pcs[t].Freeing? then {s'.pcs[t].teb} else {};
               WalkedUpTo(s', s'.pcs[t], index, callback, was, visited + next)
  {
    hide WalkedUpTo;
    var s', teb := Step(s, t, c), s.pcs[t].teb;
    if s.pcs[t].Freeing? {
      ExchangeAt(s, t, c, index, callback, teb, was, visited);
    } else {
      CallAt(s, t, c, index, callback, teb, was, visited);
    }
  }

  lemma ExchangeAt(s: State, t: nat, c: Choice, index: nat, callback: nat, teb: nat,
                   was: map<Slot, nat>, visited: set<nat>)
    requires t < |s.pcs| && WalkedUpTo(s, s.pcs[t], index, callback, was, visited)
    requires s.pcs[t].Freeing? && s.pcs[t].teb == teb
    ensures var s' := Step(s, t, c);
            && t < |s'.pcs|
            && var next := if s'.pcs[t].Freeing? then {s'.pcs[t].teb} else {};
               WalkedUpTo(s', s'.pcs[t], index, callback, was, visited + next)
  {
    var s', here := Step(s, t, c), Slot(teb, index);
    assert s'.slots == s.slots - {here} && s'.delivered == s.delivered;
    forall x: nat | x != teb
      ensures SameAt(was, s.slots, Slot(x, index)) ==> SameAt(was, s'.slots, Slot(x, index))
      ensures Emptied(s, was, Slot(x, index), callback) ==> Emptied(s', was, Slot(x, index), callback)
    {
    }
    assert here !in s.slots ==> Emptied(s', was, here, callback);
  }

  lemma CallAt(s: State, t: nat, c: Choice, index: nat, callback: nat, teb: nat,
               was: map<Slot, nat>, visited: set<nat>)
    requires t < |s.pcs| && WalkedUpTo(s, s.pcs[t], index, callback, was, visited)
    requires !s.pcs[t].Freeing? && !s.pcs[t].Idle? && s.pcs[t].teb == teb
    ensures var s' := Step(s, t, c);
            && t < |s'.pcs|
            && var next := if s'.pcs[t].Freeing? then {s'.pcs[t].teb} else {};
               WalkedUpTo(s', s'.pcs[t], index, callback, was, visited + next)
  {
    var s', here := Step(s, t, c), Slot(teb, index);
    assert s'.slots == s.slots && s'.delivered == s.delivered + [Call(callback, s.pcs[t].data)];
    forall x: nat | Emptied(s, was, Slot(x, index), callback)
      ensures Emptied(s', was, Slot(x, index), callback)
    {
    }
    assert Emptied(s', was, here, callback);
  }

  ghost predicate KeepsIndex(s: State, s': State, index: nat) {
    forall teb: nat :: SameAt(s.slots, s'.slots, Slot(teb, index))
  }

  lemma OthersWalk(s: State, t: nat, u: nat, c: Choice, index: nat, callback: nat, was: map<Slot, nat>,
                   visited: set<nat>)
    requires t < |s.pcs| && u != t && WalkedUpTo(s, s.pcs[t], index, callback, was, visited)
    requires KeepsIndex(s, Step(s, u, c), index)
    ensures var s' := Step(s, u, c);
            t < |s'.pcs| && s'.pcs[t] == s.pcs[t] && WalkedUpTo(s', s.pcs[t], index, callback, was, visited)
  {
    hide Step;
    DeliveredGrows(s, u, c);
    forall teb: nat
      ensures Emptied(s, was, Slot(teb, index), callback) ==> Emptied(Step(s, u, c), was, Slot(teb, index), callback)
      ensures SameAt(was, s.slots, Slot(teb, index)) ==> SameAt(was, Step(s, u, c).slots, Slot(teb, index))
      ensures Slot(teb, index) in Step(s, u, c).slots <==> Slot(teb, index) in s.slots
    {
      assert SameAt(s.slots, Step(s, u, c).slots, Slot(teb, index));
    }
  }

  /** From turn 1 on thread `t` is within FlsFree, and the others keep away from the index. */
  ghost predicate AloneAt(s: State, turns: seq<(nat, Choice)>, t: nat, index: nat) {
    && (forall k :: 1 <= k < |turns| ==> t < |RunFrom(s, turns[..k]).pcs| && !RunFrom(s, turns[..k]).pcs[t].Idle?)
    && (forall k :: 0 <= k < |turns| && turns[k].0 != t ==>
          KeepsIndex(RunFrom(s, turns[..k]), RunFrom(s, turns[..k + 1]), index))
  }

  lemma {:induction false} WalkingUpTo(s: State, turns: seq<(nat, Choice)>, t: nat, index: nat, teb: nat, k: nat)
    requires t < |s.pcs| && s.pcs[t].Idle? && 1 <= k <= |turns| && CallbackIn(s.callbacks, index) != 0
    requires turns[0] == (t, Free(index, teb)) && AloneAt(s, turns, t, index)
    ensures var s' := RunFrom(s, turns[..k]);
            && t < |s'.pcs| && teb in Visited(s, turns[..k], t)
            && WalkedUpTo(s', s'.pcs[t], index, CallbackIn(s.callbacks, index), s.slots, Visited(s, turns[..k], t))
  {
    hide Step, WalkedUpTo, KeepsIndex, RunFrom;
    RunNext(s, turns, k - 1);
    assert turns[..k][..k - 1] == turns[..k - 1];
    if k == 1 {
      WalkBegins(s, turns, t, index, teb);
    } else {
      WalkingUpTo(s, turns, t, index, teb, k - 1);
      var before, turn := RunFrom(s, turns[..k - 1]), turns[k - 1];
      if turn.0 == t {
        WalkStep(before, t, turn.1, index, CallbackIn(s.callbacks, index), s.slots, Visited(s, turns[..k - 1], t));
      } else {
        assert KeepsIndex(before, RunFrom(s, turns[..k - 1 + 1]), index);
        OthersWalk(before, t, turn.0, turn.1, index, CallbackIn(s.callbacks, index), s.slots,
                   Visited(s, turns[..k - 1], t));
        AlreadyVisited(before.pcs[t], Visited(s, turns[..k - 1], t), index, CallbackIn(s.callbacks, index), before,
                       s.slots);
      }
    }
  }

  lemma AlreadyVisited(pc: Pc, visited: set<nat>, index: nat, callback: nat, s: State, was: map<Slot, nat>)
    requires WalkedUpTo(s, pc, index, callback, was, visited)
    ensures pc.Freeing? ==> visited + {pc.teb} == visited
    ensures visited + {} == visited
  {
  }

  lemma WalkBegins(s: State, turns: seq<(nat, Choice)>, t: nat, index: nat, teb: nat)
    requires t < |s.pcs| && s.pcs[t].Idle? && turns != [] && turns[0] == (t, Free(index, teb))
    requires CallbackIn(s.callbacks, index) != 0
    ensures var s' := RunFrom(s, turns[..1]);
            && t < |s'.pcs| && Visited(s, turns[..1], t) == {teb}
            && WalkedUpTo(s', s'.pcs[t], index, CallbackIn(s.callbacks, index), s.slots, {teb})
  {
    RunNext(s, turns, 0);
    assert RunFrom(s, turns[..0]) == s && turns[..1][..0] == [];
  }

  /** The walk goes on to whichever TEB is next, with or without a value to deliver, and is over when there is
      none. */
  lemma WalkGoesOn(s: State, t: nat, next: Option<nat>)
    requires t < |s.pcs|
    requires s.pcs[t].FreeCall? || (s.pcs[t].Freeing? && Slot(s.pcs[t].teb, s.pcs[t].index) !in s.slots)
    ensures var pc, pc' := s.pcs[t], Step(s, t, Next(next)).pcs[t];
            if next.Some? then pc' == Freeing(pc.index, pc.callback, next.value) else pc'.Idle?
  {
  }

  /** FlsFree, from the call to the return: at every TEB it came to, the caller's first, the slot of the index is
      empty, and what stood there has been handed to the callback the index had. */
  lemma FreeCompletes(s: State, turns: seq<(nat, Choice)>, t: nat, index: nat, teb: nat)
    requires t < |s.pcs| && s.pcs[t].Idle? && |turns| > 1 && CallbackIn(s.callbacks, index) != 0
    requires turns[0] == (t, Free(index, teb)) && AloneAt(s, turns, t, index)
    requires t < |RunFrom(s, turns).pcs| && RunFrom(s, turns).pcs[t].Idle?
    ensures teb in Visited(s, turns, t)
    ensures forall v :: v in Visited(s, turns, t) ==>
              Emptied(RunFrom(s, turns), s.slots, Slot(v, index), CallbackIn(s.callbacks, index))
  {
    hide Step, KeepsIndex, RunFrom, Visited;
    assert turns[..|turns|] == turns;
    WalkingUpTo(s, turns, t, index, teb, |turns|);
  }

  // ---------------------------------------------------------------- single exchanges

  /** A value that is set stands in its slot, a slot that is cleared is empty, and an index that is allocated has
      its callback and an empty slot in the caller's TEB; no other slot changes. */
  lemma ValuesAreSet(s: State, t: nat, slot: Slot, callback: nat)
    requires t < |s.pcs| && s.pcs[t].Idle?
    ensures var s' := Step(s, t, SetValue(slot));
            slot in s'.slots && s'.slots[slot] == |s.origins| && |s'.origins| == |s.origins| + 1
    ensures slot !in Step(s, t, ClearValue(slot)).slots
    ensures var s' := Step(s, t, Alloc(slot.index, callback, slot.teb));
            slot !in s'.slots && CallbackIn(s'.callbacks, slot.index) == callback
    ensures CallbackIn(Step(s, t, Free(slot.index, slot.teb)).callbacks, slot.index) == 0
    ensures forall x :: x != slot ==>
              && SameAt(s.slots, Step(s, t, SetValue(slot)).slots, x)
              && SameAt(s.slots, Step(s, t, ClearValue(slot)).slots, x)
              && SameAt(s.slots, Step(s, t, Alloc(slot.index, callback, slot.teb)).slots, x)
  {
  }
}
