/** The module registry of the loader: registration, reference counting, recursive import
    resolution with rollback, cascading unload, thread-notification snapshots and shutdown.

    Records live in `pool`; freeing one removes its key, so every access proves that the record is
    still there.  Outcomes the loader cannot predict (allocation, file access, what DllMain answers)
    are chosen nondeterministically. */
module ModuleRegistry {
  import opened Wrappers
  import opened ModuleGraph
  import opened LoaderLaws
  import opened ThreadCalls

  /** `Saturated` is no status of the code: there the model stops, before an increment that would find
      a count at MAXLONG and be lost, with everything as it is at that moment. */
  datatype Status =
    | Success | NotFound | BufferTooSmall | Failed | DllInitFailed | InvalidHandle | InvalidParameter | Saturated

  /** What the loader reads of a DLL file once its search path resolves a name to it. */
  datatype File = File(moduleName: string, path: string, imports: seq<string>, hasTls: bool)

  /** What the loader asks of its surroundings, and may be refused: the conversion of a name for a lookup or of
      the name of an import, a file on the search path, its image in memory, all thunks of an import, room for
      a module record, for a dependency entry, a TLS directory that makes sense, a TLS block, the consent of
      DllMain, a name or path to look a handle up by, and room for a snapshot. */
  datatype Question =
    | ToAnsi | ToUnicode | OnSearchPath | ReadImage | Thunks | Record | Entry | TlsDirectory | TlsBlock | DllMain
    | HandleName | SnapshotRoom

  /** One import resolved: the state and the list before and after, whether LdkLoadDll looked the name up,
      the module, and the references leaked. */
  datatype Resolution = Resolution(
    before: View, list: seq<Ptr>,
    looked: bool, target: Ptr, own: multiset<Ptr>, nested: multiset<Ptr>,
    after: View, list': seq<Ptr>)

  /** A call by a client of the loader. */
  datatype Op =
    | Load(name: string, resolveImports: bool, resourceOnly: bool)
    | Unload(handle: Ptr)
    | AddRef(handle: Ptr, pin: bool)
    | GetHandle(name: string, path: Option<string>, pin: bool, increment: bool)
    | GetHandleByAddress(address: nat, pin: bool, increment: bool)
    | DisableThreadCalls(handle: Ptr)
    | ThreadNotification(reason: ThreadReason, refused: set<Ptr>, blocks: set<nat>)

  /** Where the image of a module lies. */
  datatype Span = Span(base: nat, size: nat)
  {
    predicate Covers(address: nat) { base <= address < base + size }
  }

  /** The first listed module whose image covers the address.  A built-in module has no image. */
  function LookupAddress(active: seq<Ptr>, pool: Pool, span: Ptr -> Span, address: nat): (r: Option<Ptr>)
    requires forall p :: p in active ==> p in pool
    ensures r.Some? ==>
              r.value in active && !pool[r.value].builtin && !pool[r.value].resourceOnly
              && span(r.value).Covers(address)
    ensures r.None? ==>
              forall p :: p in active && !pool[p].builtin && !pool[p].resourceOnly ==> !span(p).Covers(address)
  {
    if active == [] then None
    else
      var m := pool[active[0]];
      if !m.builtin && !m.resourceOnly && span(active[0]).Covers(address) then Some(active[0])
      else
        assert forall p :: p in active <==> p == active[0] || p in active[1..];
        LookupAddress(active[1..], pool, span, address)
  }

  lemma {:induction false} LookupAddressIsFirst(active: seq<Ptr>, pool: Pool, span: Ptr -> Span, address: nat, i: nat)
    requires (forall p :: p in active ==> p in pool) && i < |active|
    requires LookupAddress(active, pool, span, address) == Some(active[i])
    requires forall j :: 0 <= j < i ==> active[j] != active[i]
    ensures forall j :: 0 <= j < i && !pool[active[j]].builtin && !pool[active[j]].resourceOnly ==>
              !span(active[j]).Covers(address)
  {
    if i > 0 {
      assert active[1..][i - 1] == active[i];
      LookupAddressIsFirst(active[1..], pool, span, address, i - 1);
      assert forall j :: 1 <= j < i ==> active[j] == active[1..][j - 1];
    }
  }

  /** What LdkUnloadDll makes of the table, for a counted module that names no other. */
  ghost function Released(s: State, p: Ptr): State {
    if p !in s.active || p !in s.pool then s
    else if s.pool[p].loadCount > 1 then AfterDecrement(s, p)
    else State(Without(s.active, IndexOf(s.active, p)), s.pool - {p}, s.held - multiset{p})
  }

  lemma ReleasedByCount(s: State, p: Ptr)
    requires p in s.active && p in s.pool && s.pool[p].loadCount > 1
    ensures Released(s, p) == AfterDecrement(s, p)
  {
  }

  lemma LastReleased(s: State, p: Ptr)
    requires p in s.active && p in s.pool && s.pool[p].loadCount <= 1 && s.pool[p].deps == [] && s.held[p] == 1
    ensures Released(s, p) == AfterRemoval(s, IndexOf(s.active, p))
  {
  }

  class Registry {
    /** ModuleListHead, oldest first. */
    var active: seq<Ptr>
    var pool: Pool
    var nextRecord: Ptr
    /** The bitmap of TLS indices. */
    var tlsBits: set<nat>
    var log: seq<Event>

    /** What has been asked so far.  The nth question is granted or not by the surroundings. */
    var asked: seq<Question>
    const granted: nat -> bool

    /** References callers hold, see State. */
    ghost var held: multiset<Ptr>

    /** The files the search path finds, by the name asked for. */
    const files: map<string, File>
    const builtinNames: set<string>
    const tlsSlots: nat
    const span: Ptr -> Span
    /** TLS indices that TlsAlloc handed out. */
    const clientTls: set<nat>
    /** Imports have a lower rank than the file that names them. */
    ghost const rank: string -> nat

    ghost function S(): State
      reads this
    {
      State(active, pool, held)
    }

    ghost function Names(): set<string> {
      builtinNames + set f | f in files :: files[f].moduleName
    }

    ghost function V(): View
      reads this
    {
      View(S(), nextRecord, tlsBits, log, clientTls, Names())
    }

    /** Records that stay keep their names. */
    static ghost predicate NamesKept(pool: Pool, pool': Pool) {
      forall p :: p in pool && p in pool' ==> pool'[p].name == pool[p].name
    }

    static lemma CollectedNames(s: State, s': State)
      requires Collected(s, s')
      ensures NamesKept(s.pool, s'.pool)
    {
      forall p | p in s.pool && p in s'.pool ensures s'.pool[p].name == s.pool[p].name {
        assert s.pool[p].SameButCount(s'.pool[p]);
      }
    }

    static lemma GrownNames(s: State, s': State)
      requires Grown(s, s')
      ensures NamesKept(s.pool, s'.pool)
    {
      forall p | p in s.pool && p in s'.pool ensures s'.pool[p].name == s.pool[p].name {
        assert s.pool[p].SameButCount(s'.pool[p]);
      }
    }

    /** No import cycle: a module is registered only after its imports are. */
    ghost predicate WellFounded()
    {
      forall f, i :: f in files && i in files[f].imports ==> rank(i) < rank(f)
    }

    /** The laws between two calls. */
    ghost predicate Valid()
      reads this
    {
      Lawful(V()) && Quiet(S()) && WellFounded()
    }

    // ---------------------------------------------------------------- what is asked for

    method Ask(question: Question) returns (ok: bool)
      modifies `asked
      ensures asked == old(asked) + [question] && ok == granted(old(|asked|))
    {
      ok := granted(|asked|);
      asked := asked + [question];
    }

    /** Nothing asked since then was refused, except perhaps a conversion for a lookup. */
    ghost predicate Served(asked: seq<Question>, since: nat) {
      forall n :: since <= n < |asked| && asked[n] != ToAnsi ==> granted(n)
    }

    lemma ServedNext(asked: seq<Question>, question: Question)
      ensures Served(asked + [question], |asked|) <==> question == ToAnsi || granted(|asked|)
      ensures Served(asked, |asked|)
    {
      assert (asked + [question])[|asked|] == question;
    }

    lemma ServedBoth(asked: seq<Question>, asked': seq<Question>, since: nat)
      requires asked <= asked' && since <= |asked|
      ensures Served(asked', since) <==> Served(asked, since) && Served(asked', |asked|)
    {
      assert forall n :: 0 <= n < |asked| ==> asked'[n] == asked[n];
    }

    /** How the answers decide: a success means that nothing was refused, and where nothing was refused and
        there was `enough` to go on, it is one. */
    ghost predicate Decided(before: seq<Question>, asked: seq<Question>, status: Status, enough: bool) {
      && before <= asked
      && (status == Success ==> Served(asked, |before|))
      && (Served(asked, |before|) && enough ==> status == Success || status == Saturated)
    }

    lemma DecidedThen(a: seq<Question>, b: seq<Question>, c: seq<Question>, first: Status, last: Status,
                      some: bool, more: bool, enough: bool)
      requires Decided(a, b, first, some)
      requires if first == Success then Decided(b, c, last, more)
               else c == b && last != Success && (first == Saturated ==> last == Saturated)
      requires enough ==> some && (first == Success ==> more)
      ensures Decided(a, c, last, enough)
    {
      hide Served;
      if first == Success {
        ServedBoth(b, c, |a|);
      }
    }

    lemma DecidedByAnswer(a: seq<Question>, question: Question, status: Status, enough: bool)
      requires question != ToAnsi && status != Saturated
      requires if granted(|a|) then enough ==> status == Success else status != Success
      ensures Decided(a, a + [question], status, enough)
    {
      hide Served;
      ServedNext(a, question);
    }

    lemma DecidedSaturated(a: seq<Question>, b: seq<Question>, enough: bool)
      requires a <= b
      ensures Decided(a, b, Saturated, enough)
    {
    }

    lemma DecidedLess(a: seq<Question>, b: seq<Question>, status: Status, some: bool, less: bool)
      requires Decided(a, b, status, some) && (less ==> some)
      ensures Decided(a, b, status, less)
    {
    }

    /** One import resolved, and its thunks bound. */
    lemma DecidedByRound(a: seq<Question>, b: seq<Question>, c: seq<Question>, d: seq<Question>,
                         resolved: Status, snapped: bool, able: bool, enough: bool)
      requires Decided(a, b, Success, enough) && Decided(b, c, resolved, able) && (enough ==> able)
      requires d == if resolved == Success then c + [Thunks] else c
      requires snapped == (resolved == Success && granted(|c|))
      ensures Decided(a, d, if snapped then Success else if resolved == Saturated then Saturated else Failed, enough)
    {
      hide Decided;
      var last := if snapped then Success else if resolved == Saturated then Saturated else Failed;
      if resolved == Success {
        DecidedByAnswer(c, Thunks, last, true);
      }
      DecidedThen(b, c, d, resolved, last, able, true, able);
      DecidedThen(a, b, d, Success, last, enough, able, enough);
    }

    lemma DecidedByLookup(a: seq<Question>, enough: bool)
      ensures Decided(a, a + [ToAnsi], Success, enough)
    {
      ServedNext(a, ToAnsi);
    }

    lemma DecidedUnasked(a: seq<Question>, status: Status, enough: bool)
      requires enough ==> status == Success || status == Saturated
      ensures Decided(a, a, status, enough)
    {
    }

    // ---------------------------------------------------------------- unloading

    /** A counted module of which one reference is left, or none. */
    static predicate Expiring(active: seq<Ptr>, pool: Pool, p: Ptr) {
      p in active && p in pool && pool[p].Counted() && pool[p].loadCount <= 1
    }

    /** LdkUnloadDll */
    method UnloadDll(handle: Ptr) returns (status: Status)
      requires Lawful(V())
      requires Loadable(S(), handle) ==> handle in held
      modifies this
      ensures Lawful(V()) && SameHistory(old(V()), V()) && Collected(old(S()), S())
      ensures status == if handle in old(active) then Success else NotFound
      ensures held == if old(Loadable(S(), handle)) then old(held) - multiset{handle} else old(held)
      ensures NamesKept(old(pool), pool)
      ensures if old(Expiring(active, pool, handle)) then old(log) + [Event(Unlisting, handle, [])] <= log
              else log == old(log)
      ensures old(handle in active && handle in pool && pool[handle].Counted() && pool[handle].deps == []) ==>
                S() == old(Released(S(), handle))
      ensures asked == old(asked) && tlsBits <= old(tlsBits) && PinsKept(old(S()), S())
      decreases |active|, 0, 1
    {
      hide Inv, Lawful, SameHistory, Collected, Names, Called, NamesKept, Edges, Recorded, RecordsOk;
      hide PinsKept, Released;
      ghost var v := V();
      LawfulFacts(v);
      if handle !in active {
        NoStep(v);
        CollectedNames(v.s, S());
        CollectedKeepsPins(v.s, S());
        return NotFound;
      }
      status := Success;
      var m := pool[handle];
      if m.builtin {
        NoStep(v);
      } else if m.pinned {
        held := held - multiset{handle};
        PinnedStep(v, handle);
      } else if m.loadCount > 1 {
        pool := pool[handle := m.(loadCount := m.loadCount - 1)];
        held := held - multiset{handle};
        DecrementStep(v, handle);
        ReleasedByCount(v.s, handle);
      } else {
        RemoveAndUnregister(handle);
      }
      CollectedNames(v.s, S());
      CollectedKeepsPins(v.s, S());
    }

    /** The branch of LdkUnloadDll that drops the last reference. */
    method RemoveAndUnregister(handle: Ptr)
      requires Lawful(V()) && handle in active && handle in pool && handle in held
      requires pool[handle].Counted() && pool[handle].loadCount <= 1
      modifies this
      ensures Lawful(V()) && SameHistory(old(V()), V()) && Collected(old(S()), S())
      ensures held == old(held) - multiset{handle}
      ensures old(log) + [Event(Unlisting, handle, [])] <= log
      ensures old(pool[handle].deps) == [] ==> S() == old(Released(S(), handle))
      ensures asked == old(asked) && tlsBits <= old(tlsBits)
      decreases |active|, 0, 0
    {
      hide Released, AfterRemoval, Inv, Lawful, Unlinked, SameHistory, Collected, Edges, Keep, Names, Called, Detach,
           ClearTls;
      hide FollowsDetach, Free, Expiring, NamesKept;
      ghost var v := V();
      var i := IndexOf(active, handle);
      var m := pool[handle].(loadCount := 0);
      pool := pool[handle := m];
      active := Without(active, i);
      log := log + [Event(Unlisting, handle, [])];
      held := held[handle := 0] + multiset(m.deps);
      LastReferenceUnlinks(v, i);
      assert V() == Unlink(v, i, m);
      ghost var u := V();
      UnregisterModule(handle);
      HistoryGrows(u, V());
      if m.deps == [] {
        LastReleased(v.s, handle);
      }
      SameHistoryAfterUnlink(v, i, m, V());
      CollectedTransitive(v.s, Free(Unlink(v, i, m), handle).s, S());
    }

    /** LdkpUnregisterModule, on a record already taken off the list. */
    method UnregisterModule(p: Ptr)
      requires Unlinked(V(), p)
      modifies this
      ensures Lawful(V()) && SameHistory(old(V()), V())
      ensures old(pool[p].builtin) ==> S() == old(S())
      ensures !old(pool[p].builtin) ==> Collected(old(Free(V(), p).s), S())
      ensures held == old(held) - multiset(old(pool[p].deps))
      ensures old(!pool[p].builtin && pool[p].deps == []) ==> S() == old(Free(V(), p).s)
      ensures old(!pool[p].builtin && pool[p].attached) ==>
                old(log) + [Event(ProcessDetach, p, old(pool[p].deps))] <= log
      ensures asked == old(asked) && tlsBits <= old(tlsBits)
      ensures FollowsDetach(old(V()), p, log)
      decreases |active|, 2
    {
      hide Inv, Lawful, SameHistory, Collected, Edges, Keep, Names, Called, Unlinked, NamesKept, Expiring,
           FollowsDetach;
      hide ClearTls, Free;
      UnlinkedFacts(V(), p);
      var m := pool[p];
      if m.builtin {
        UnlinkedBuiltin(V(), p);
        SameHistoryReflexive(V());
        NothingFollows(V(), p);
        return;
      }
      ghost var v := V();
      DetachAndClear(p);
      ghost var u := V();
      ReleaseModuleDependencies(m.deps);
      HistoryGrows(u, V());
      NextUnlisted(v, p, log);
      ReleasedThenFreed(v, p, V());
      FreedFacts(V(), p);
      if m.deps == [] {
        FreedFacts(u, p);
      }
      pool := pool - {p};
    }

    /** Its first part: the calls into the module, and its TLS index. */
    method DetachAndClear(p: Ptr)
      requires Unlinked(V(), p) && !pool[p].builtin
      modifies `pool, `tlsBits, `log
      ensures V() == old(ClearTls(Detach(V(), p), p)) && Lawful(V()) && SameHistory(old(V()), V())
      ensures held == old(held) && active == old(active) && p in pool && tlsBits <= old(tlsBits) && old(log) <= log
      ensures old(pool[p].attached) ==> old(log) + [Event(ProcessDetach, p, old(pool[p].deps))] == log
    {
      hide Inv, Lawful, SameHistory, Edges, Names, Called, Unlinked;
      UnlinkedFacts(V(), p);
      DetachThenClear(V(), p);
      ClearedFacts(V(), p);
      if pool[p].attached {
        log := log + [Event(ProcessDetach, p, pool[p].deps)];
      }
      UninitializeModuleTls(p);
    }

    static lemma FreedFacts(v: View, p: Ptr)
      ensures Free(v, p) == v.(s := v.s.(pool := v.s.pool - {p}))
    {
    }

    /** The next to go after a module is the last of its dependencies, if nobody else needs that. */
    static ghost predicate FollowsDetach(v: View, p: Ptr, log: seq<Event>)
      requires p in v.s.pool
    {
      var m := v.s.pool[p];
      !m.builtin && m.deps != [] && Expiring(v.s.active, v.s.pool, m.deps[|m.deps| - 1]) ==>
        Detach(v, p).log + [Event(Unlisting, m.deps[|m.deps| - 1], [])] <= log
    }

    static lemma NothingFollows(v: View, p: Ptr)
      requires p in v.s.pool && v.s.pool[p].builtin
      ensures FollowsDetach(v, p, v.log)
    {
    }

    static lemma NextUnlisted(v: View, p: Ptr, log: seq<Event>)
      requires p in v.s.pool && p !in v.s.active
      requires var u, deps := ClearTls(Detach(v, p), p), v.s.pool[p].deps;
               deps != [] && Expiring(u.s.active, u.s.pool, deps[|deps| - 1]) ==>
                 u.log + [Event(Unlisting, deps[|deps| - 1], [])] <= log
      ensures FollowsDetach(v, p, log)
    {
    }

    /** LdkpUninitializeModuleTls: give back the index. */
    method UninitializeModuleTls(p: Ptr)
      requires p in pool
      modifies `pool, `tlsBits
      ensures V() == old(ClearTls(V(), p))
    {
      if pool[p].tls.None? {
        assert pool[p := pool[p]] == pool;
        return;
      }
      tlsBits := tlsBits - {pool[p].tls.value};
      pool := pool[p := pool[p].(tls := None)];
    }

    /** LdkpReleaseModuleDependencies, last entry first. */
    method ReleaseModuleDependencies(list: seq<Ptr>)
      requires Lawful(V()) && Refs(list) <= held
      modifies this
      ensures Lawful(V()) && SameHistory(old(V()), V()) && Collected(old(S()), S())
      ensures held == old(held) - Refs(list)
      ensures NamesKept(old(pool), pool)
      ensures list == [] ==> V() == old(V())
      ensures asked == old(asked) && tlsBits <= old(tlsBits)
      ensures list != [] && old(Expiring(active, pool, list[|list| - 1])) ==>
                old(log) + [Event(Unlisting, list[|list| - 1], [])] <= log
      decreases |active|, 1
    {
      hide Inv, Lawful, SameHistory, Collected, Edges, Keep, Names, Called, Loadable, Refs, NamesKept;
      var rest := list;
      ghost var others := held - Refs(list);
      NoStep(V());
      RefsOfNone();
      while rest != []
        invariant held == others + Refs(rest)
        invariant Lawful(V()) && SameHistory(old(V()), V()) && Collected(old(S()), S())
        invariant |active| <= |old(active)| && asked == old(asked) && tlsBits <= old(tlsBits)
        invariant list == [] ==> V() == old(V())
        invariant if rest == list then V() == old(V())
                  else list != [] && (old(Expiring(active, pool, list[|list| - 1])) ==>
                                        old(log) + [Event(Unlisting, list[|list| - 1], [])] <= log)
        invariant |rest| <= |list|
        decreases |rest|
      {
        ghost var v := V();
        ReleaseLast(rest, others);
        rest := rest[..|rest| - 1];
        HistoryGrows(v, V());
        SameHistoryTransitive(old(V()), v, V());
        CollectedTransitive(old(S()), v.s, S());
      }
      CollectedNames(old(S()), S());
    }

    /** One round of that loop. */
    method ReleaseLast(rest: seq<Ptr>, ghost others: multiset<Ptr>)
      requires Lawful(V()) && rest != [] && held == others + Refs(rest)
      modifies this
      ensures Lawful(V()) && SameHistory(old(V()), V()) && Collected(old(S()), S())
      ensures |active| <= |old(active)| && held == others + Refs(rest[..|rest| - 1])
      ensures asked == old(asked) && tlsBits <= old(tlsBits)
      ensures old(Expiring(active, pool, rest[|rest| - 1])) ==>
                old(log) + [Event(Unlisting, rest[|rest| - 1], [])] <= log
      decreases |active|, 0, 2
    {
      hide Inv, Lawful, SameHistory, Collected, Edges, Keep, Names, Called, Refs, NamesKept;
      ghost var v := V();
      RefsOfLast(rest, others);
      LawfulFacts(v);
      var _ := UnloadDll(rest[|rest| - 1]);
      CollectedMembers(v.s, S());
    }

    // ---------------------------------------------------------------- lookup and reference

    /** LdkpGetModuleByNameEx */
    method GetModuleByName(name: string, resourceOnly: bool) returns (r: Option<Ptr>)
      requires Allocated(active, pool)
      ensures r == Lookup(active, pool, name, resourceOnly)
    {
      var i := 0;
      while i < |active|
        invariant 0 <= i <= |active|
        invariant Lookup(active, pool, name, resourceOnly) == FirstMatch(active[i..], pool, name, resourceOnly)
      {
        var m := pool[active[i]];
        if m.resourceOnly == resourceOnly && SameName(m.name, name) {
          return Some(active[i]);
        }
        assert active[i..][1..] == active[i + 1..];
        i := i + 1;
      }
      r := None;
    }

    /** LdkpReferenceModuleLocked */
    method ReferenceModuleLocked(p: Ptr, pin: bool, increment: bool)
      requires p in pool
      modifies `pool, `held
      ensures S() == old(AfterReference(S(), p, pin, increment))
    {
      ghost var was := pool;
      var m := pool[p];
      UpdateTwice(pool, p, m, m);
      if m.builtin {
        return;
      }
      if pin {
        pool := pool[p := pool[p].(pinned := true)];
      }
      assert pool == was[p := if pin then m.(pinned := true) else m];
      if increment && !pool[p].pinned && pool[p].loadCount < MAXLONG {
        UpdateTwice(was, p, pool[p], pool[p].(loadCount := pool[p].loadCount + 1));
        pool := pool[p := pool[p].(loadCount := pool[p].loadCount + 1)];
      }
      assert pool == was[p := Referenced(m, pin, increment)];
      held := if increment then held + multiset{p} else held;
    }

    /** A reference, up to the first that would be lost. */
    method TryReference(p: Ptr, pin: bool, increment: bool) returns (status: Status)
      requires Valid() && p in active && p in pool
      modifies `pool, `held
      ensures Valid() && SameHistory(old(V()), V()) && NamesKept(old(pool), pool)
      ensures !pin ==> Loading(old(V()), V())
      ensures status == if increment && !pin && old(pool)[p].Counted() && old(pool)[p].loadCount >= MAXLONG
                        then Saturated else Success
      ensures status == Success ==> S() == old(AfterReference(S(), p, pin, increment))
      ensures status == Saturated ==> S() == old(S()) && AtLimit(S())
    {
      hide Lawful, Inv, Grown, Names, Edges;
      LawfulFacts(V());
      if increment && !pin && pool[p].Counted() && pool[p].loadCount >= MAXLONG {
        LoadingReflexive(V());
        return Saturated;
      }
      PinStep(V(), p, pin, increment);
      if !pin {
        ReferenceStep(V(), p, increment);
      }
      ReferenceModuleLocked(p, pin, increment);
      status := Success;
    }

    /** LdkpReferenceModuleByNameEx, as LdkLoadDll calls it. */
    method ReferenceModuleByName(name: string, resourceOnly: bool) returns (status: Status, r: Option<Ptr>)
      requires Valid()
      modifies this
      ensures Valid() && Loading(old(V()), V()) && asked == old(asked)
      ensures status == Success || status == Saturated
      ensures status == Success ==>
                && r == Lookup(old(active), old(pool), name, resourceOnly)
                && V() == if r.None? then old(V()) else old(V()).(s := AfterReference(old(S()), r.value, false, true))
      ensures status == Saturated ==> V() == old(V()) && AtLimit(S())
    {
      hide Lawful, Inv, Grown, Names, Edges, Loading, AfterReference;
      LawfulFacts(V());
      LoadingReflexive(V());
      status := Success;
      r := GetModuleByName(name, resourceOnly);
      if r.Some? {
        status := TryReference(r.value, false, true);
      }
    }

    /** The module LdkLoadDll finds registered: under the name given, or with ".dll" appended. */
    static ghost function FindEither(active: seq<Ptr>, pool: Pool, name: string, resourceOnly: bool): (r: Option<Ptr>)
      requires Allocated(active, pool)
      ensures r.Some? ==> r.value in active
    {
      var exact := Lookup(active, pool, name, resourceOnly);
      if exact.Some? then exact else Lookup(active, pool, name + ".dll", resourceOnly)
    }

    /** A module found under the name itself comes before one found under the suffixed name, and nothing that
        either name stands for is overlooked. */
    static lemma FindEitherMeans(active: seq<Ptr>, pool: Pool, name: string, resourceOnly: bool)
      requires Allocated(active, pool)
      ensures var r := FindEither(active, pool, name, resourceOnly);
              && (r.Some? ==>
                    && r.value in active && pool[r.value].resourceOnly == resourceOnly
                    && (SameName(pool[r.value].name, name) || SameName(pool[r.value].name, name + ".dll")))
              && forall p :: p in active && pool[p].resourceOnly == resourceOnly ==>
                   && (SameName(pool[p].name, name) ==> r.Some? && SameName(pool[r.value].name, name))
                   && (SameName(pool[p].name, name + ".dll") ==> r.Some?)
    {
    }

    /** The first part of LdkLoadDll.  When the name cannot be converted no lookup takes place. */
    method ReferenceLoaded(name: string, resourceOnly: bool)
      returns (status: Status, looked: bool, r: Option<Ptr>)
      requires Valid()
      modifies this
      ensures Valid() && Loading(old(V()), V())
      ensures asked == old(asked) + [ToAnsi] && looked == granted(old(|asked|))
      ensures status == Success || status == Saturated
      ensures status == Success ==>
                && r == (if looked then FindEither(old(active), old(pool), name, resourceOnly) else None)
                && V() == if r.None? then old(V()) else old(V()).(s := AfterReference(old(S()), r.value, false, true))
      ensures status == Saturated ==> V() == old(V()) && AtLimit(S())
    {
      hide Lawful, Inv, Grown, Names, Edges, Loading;
      LoadingReflexive(V());
      LawfulFacts(V());
      status, r := Success, None;
      looked := Ask(ToAnsi);
      if looked {
        status, r := ReferenceModuleByName(name, resourceOnly);
        if status == Success && r.None? {
          status, r := ReferenceModuleByName(name + ".dll", resourceOnly);
        }
      }
    }

    /** LdkpAddModuleDependency on a dependency list under construction. */
    method AddModuleDependency(list: seq<Ptr>, p: Ptr, increment: bool)
      returns (status: Status, list': seq<Ptr>)
      requires Valid() && p in active && p in pool
      modifies this
      ensures Valid() && Loading(old(V()), V())
      ensures asked == if old(pool)[p].builtin || p in list then old(asked) else old(asked) + [Entry]
      ensures status == Failed <==> !old(pool)[p].builtin && p !in list && !granted(old(|asked|))
      ensures Decided(old(asked), asked, status, true)
      ensures status == Success || status == Failed || (increment && status == Saturated)
      ensures status == Success ==> list' == if old(pool)[p].builtin || p in list then list else Snoc(list, p)
      ensures status != Success ==> list' == list && p !in list && !old(pool)[p].builtin && V() == old(V())
      ensures status == Saturated ==> AtLimit(S())
      ensures V() == if increment && list' != list
                     then old(V()).(s := AfterReference(old(S()), p, false, true)) else old(V())
      ensures active == old(active) && p in pool && pool[p].builtin == old(pool)[p].builtin
      ensures held == if increment && list' != list then old(held) + multiset{p} else old(held)
    {
      hide Lawful, Inv, Grown, Names, Edges, Loading, Decided, Served;
      DecidedUnasked(asked, Success, true);
      LoadingReflexive(V());
      status, list' := Success, list;
      if pool[p].builtin || p in list {
        return;
      }
      DecidedByAnswer(asked, Entry, if granted(|asked|) then Success else Failed, true);
      var room := Ask(Entry);
      if !room {
        return Failed, list;
      }
      if increment {
        status := TryReference(p, false, true);
        if status != Success {
          DecidedSaturated(old(asked), asked, true);
          return;
        }
      }
      list' := list + [p];
    }

    // ---------------------------------------------------------------- loading

    /** The import `i`, or one its file leads to, is `n` without the suffix. */
    ghost predicate SuffixedImport(i: string, n: string)
      requires WellFounded()
      decreases rank(i), 1
    {
      SameName(n, i + ".dll") || Suffixed(i, n)
    }

    /** Some import that a load of `name` meets is `n` without the suffix. */
    ghost predicate Suffixed(name: string, n: string)
      requires WellFounded()
      decreases rank(name), 0
    {
      name in files && exists k :: 0 <= k < |files[name].imports| && SuffixedImport(files[name].imports[k], n)
    }

    /** These modules are registered under the suffixed name of an import that a load of `name` meets. */
    ghost predicate LeaksOf(name: string, leaked: multiset<Ptr>, pool: Pool)
      requires WellFounded()
    {
      forall p :: p in leaked ==> p in pool && Suffixed(name, pool[p].name)
    }

    ghost predicate LeaksOfImport(i: string, leaked: multiset<Ptr>, pool: Pool)
      requires WellFounded()
    {
      forall p :: p in leaked ==> p in pool && SuffixedImport(i, pool[p].name)
    }

    /** No module can be registered under the suffixed name of an import that a load of `name` meets. */
    ghost predicate ExactNames(name: string)
      requires WellFounded()
    {
      forall n :: n in Names() ==> !Suffixed(name, n)
    }

    lemma HeldIsNamed(p: Ptr)
      requires Valid() && p in held
      ensures p in pool && pool[p].name in Names()
    {
      assert Loadable(S(), p);
    }

    lemma ExactNamesLeakNothing(name: string, leaked: multiset<Ptr>)
      requires Valid() && ExactNames(name) && LeaksOf(name, leaked, pool) && leaked <= held
      ensures leaked == multiset{}
    {
      hide Suffixed, Lawful, Names;
      if leaked != multiset{} {
        var p :| p in leaked;
        HeldIsNamed(p);
      }
    }

    lemma NoLeaks(name: string, pool: Pool)
      requires WellFounded()
      ensures LeaksOf(name, multiset{}, pool)
    {
    }

    /** Leaks stay what they are while names are kept. */
    lemma LeaksStay(name: string, leaked: multiset<Ptr>, pool: Pool, pool': Pool)
      requires WellFounded() && LeaksOf(name, leaked, pool) && NamesKept(pool, pool')
      requires forall p :: p in leaked ==> p in pool'
      ensures LeaksOf(name, leaked, pool')
    {
    }

    lemma ImportLeaksStay(i: string, leaked: multiset<Ptr>, fewer: multiset<Ptr>, pool: Pool, pool': Pool)
      requires WellFounded() && LeaksOfImport(i, leaked, pool) && NamesKept(pool, pool') && fewer <= leaked
      requires forall p :: p in fewer ==> p in pool'
      ensures LeaksOfImport(i, fewer, pool')
    {
      forall p | p in fewer ensures p in leaked {
      }
    }

    /** One more import adds its leaks. */
    lemma LeaksAdd(name: string, i: string, leaked: multiset<Ptr>, extra: multiset<Ptr>, v: View, w: View)
      requires WellFounded() && name in files && i in files[name].imports
      requires LeaksOf(name, leaked, v.s.pool) && Loading(v, w) && LeaksOfImport(i, extra, w.s.pool)
      ensures LeaksOf(name, leaked + extra, w.s.pool)
    {
      hide SuffixedImport, Grown;
      var k :| 0 <= k < |files[name].imports| && files[name].imports[k] == i;
      LoadingFacts(v, w);
      forall p | p in leaked ensures p in w.s.pool && w.s.pool[p].name == v.s.pool[p].name {
        GrownKeeps(v.s, w.s, p);
      }
    }

    static lemma GrownKeeps(s: State, s': State, p: Ptr)
      requires Grown(s, s') && p in s.pool
      ensures p in s'.pool && s'.pool[p].name == s.pool[p].name
    {
      assert s.pool[p].SameButCount(s'.pool[p]);
    }

    /** The import is registered only under its suffixed name, and already a dependency. */
    static ghost predicate Aliased(active: seq<Ptr>, pool: Pool, name: string, list: seq<Ptr>)
      requires Allocated(active, pool)
    {
      && Lookup(active, pool, name, false).None?
      && FindEither(active, pool, name, false).Some?
      && FindEither(active, pool, name, false).value in list
    }

    /** A registered module an import name may stand for. */
    static ghost predicate Provides(active: seq<Ptr>, pool: Pool, files: map<string, File>, name: string, p: Ptr) {
      && p in active && p in pool && !pool[p].resourceOnly
      && (SameName(pool[p].name, name) || SameName(pool[p].name, name + ".dll")
          || (name in files && pool[p].name == files[name].moduleName))
    }

    /** The import `name` has its module, in `list` unless it is built-in. */
    static ghost predicate Supplied(active: seq<Ptr>, pool: Pool, files: map<string, File>, name: string,
                                    list: seq<Ptr>)
    {
      exists p :: Provides(active, pool, files, name, p) && p in pool && (pool[p].builtin || p in list)
    }

    /** The module `p` stands for one of the imports. */
    static ghost predicate Wanted(active: seq<Ptr>, pool: Pool, files: map<string, File>, imports: seq<string>,
                                  p: Ptr)
    {
      exists i :: 0 <= i < |imports| && Provides(active, pool, files, imports[i], p)
    }

    /** Every import has its module; the list holds nothing else, and nothing twice. */
    static ghost predicate Met(active: seq<Ptr>, pool: Pool, files: map<string, File>, imports: seq<string>,
                               list: seq<Ptr>)
    {
      && (forall i :: 0 <= i < |imports| ==> Supplied(active, pool, files, imports[i], list))
      && (forall k :: 0 <= k < |list| ==> Wanted(active, pool, files, imports, list[k]))
      && Distinct(list)
    }

    /** A module just loaded from the file of that name. */
    static ghost predicate LoadedFrom(active: seq<Ptr>, pool: Pool, files: map<string, File>, name: string, p: Ptr) {
      && name in files && p in pool && pool[p].name == files[name].moduleName
      && Met(active, pool, files, files[name].imports, pool[p].deps)
    }

    /** Where the module of an import comes from: it was registered under the name, or LdkLoadDll found it
        under the name or its suffixed form, or its file has just been loaded. */
    static ghost predicate Origin(s: State, active: seq<Ptr>, pool: Pool, files: map<string, File>, name: string,
                                  looked: bool, p: Ptr, nested: multiset<Ptr>)
      requires Allocated(s.active, s.pool)
    {
      if p !in s.pool then LoadedFrom(active, pool, files, name, p)
      else
        && nested == multiset{}
        && (Lookup(s.active, s.pool, name, false) == Some(p)
            || (looked && FindEither(s.active, s.pool, name, false) == Some(p)))
    }

    /** An import resolved as LdkpResolveImportModule does it. */
    ghost predicate Resolves(name: string, r: Resolution)
      requires WellFounded()
    {
      && var s, p, t := r.before.s, r.target, r.after.s;
      && Allocated(s.active, s.pool) && p in t.active && p in t.pool
      && Loading(r.before, r.after) && Provides(t.active, t.pool, files, name, p)
      && Exchanged(s.held, r.list, t.held, r.list', r.own + r.nested)
      && r.list' == (if t.pool[p].builtin || p in r.list then r.list else Snoc(r.list, p))
      && r.own == (if r.looked && Aliased(s.active, s.pool, name, r.list) then multiset{p} else multiset{})
      && Origin(s, t.active, t.pool, files, name, r.looked, p, r.nested)
      && LeaksOfImport(name, r.own + r.nested, t.pool)
    }

    static ghost function After(v: View, walk: seq<Resolution>): View {
      if walk == [] then v else walk[|walk| - 1].after
    }

    static ghost function ListAfter(walk: seq<Resolution>): seq<Ptr> {
      if walk == [] then [] else walk[|walk| - 1].list'
    }

    static ghost function LeakedBy(walk: seq<Resolution>): multiset<Ptr> {
      if walk == [] then multiset{}
      else var r := walk[|walk| - 1]; LeakedBy(walk[..|walk| - 1]) + (r.own + r.nested)
    }

    /** The imports resolved one after the other, from an empty list. */
    ghost predicate Walked(v: View, imports: seq<string>, walk: seq<Resolution>)
      requires WellFounded()
    {
      && |walk| == |imports|
      && (walk == [] ||
          var last, before := walk[|walk| - 1], walk[..|walk| - 1];
          && last.before == After(v, before) && last.list == ListAfter(before)
          && Resolves(imports[|walk| - 1], last)
          && Walked(v, imports[..|walk| - 1], before))
    }

    lemma WalkedOn(v: View, imports: seq<string>, i: nat, walk: seq<Resolution>, r: Resolution)
      requires WellFounded() && i < |imports| && Walked(v, imports[..i], walk) && Resolves(imports[i], r)
      requires r.before == After(v, walk) && r.list == ListAfter(walk)
      ensures Walked(v, imports[..i + 1], walk + [r])
      ensures LeakedBy(walk + [r]) == LeakedBy(walk) + (r.own + r.nested)
      ensures After(v, walk + [r]) == r.after && ListAfter(walk + [r]) == r.list'
    {
      hide Resolves;
      assert (walk + [r])[..|walk|] == walk && imports[..i + 1][..i] == imports[..i];
    }

    static lemma NoneMet(active: seq<Ptr>, pool: Pool, files: map<string, File>, imports: seq<string>)
      ensures Met(active, pool, files, imports[..0], [])
    {
    }

    /** References and new modules take no import away. */
    static lemma ProvidesLater(v: View, w: View, files: map<string, File>, name: string, p: Ptr)
      requires Grown(v.s, w.s) && Provides(v.s.active, v.s.pool, files, name, p)
      ensures p in v.s.pool && p in w.s.pool && w.s.pool[p].builtin == v.s.pool[p].builtin
      ensures Provides(w.s.active, w.s.pool, files, name, p)
    {
      var k :| 0 <= k < |v.s.active| && v.s.active[k] == p;
      assert w.s.active[k] == p && v.s.pool[p].SameButCount(w.s.pool[p]);
    }

    static lemma SuppliedLater(v: View, w: View, files: map<string, File>, name: string, list: seq<Ptr>,
                               list': seq<Ptr>)
      requires Grown(v.s, w.s) && list <= list' && Supplied(v.s.active, v.s.pool, files, name, list)
      ensures Supplied(w.s.active, w.s.pool, files, name, list')
    {
      hide Provides, Grown;
      var q :| Provides(v.s.active, v.s.pool, files, name, q) && q in v.s.pool && (v.s.pool[q].builtin || q in list);
      ProvidesLater(v, w, files, name, q);
      assert q in list ==> q in list';
    }

    static lemma WantedLater(v: View, w: View, files: map<string, File>, imports: seq<string>, more: seq<string>,
                             p: Ptr)
      requires Grown(v.s, w.s) && imports <= more && Wanted(v.s.active, v.s.pool, files, imports, p)
      ensures Wanted(w.s.active, w.s.pool, files, more, p)
    {
      hide Provides, Grown;
      var i :| 0 <= i < |imports| && Provides(v.s.active, v.s.pool, files, imports[i], p);
      ProvidesLater(v, w, files, imports[i], p);
      assert more[i] == imports[i];
    }

    lemma OneMoreMet(v: View, w: View, imports: seq<string>, i: nat, list: seq<Ptr>, list': seq<Ptr>, p: Ptr)
      requires Loading(v, w) && i < |imports| && Met(v.s.active, v.s.pool, files, imports[..i], list)
      requires p in w.s.pool && Provides(w.s.active, w.s.pool, files, imports[i], p)
      requires list' == if w.s.pool[p].builtin || p in list then list else Snoc(list, p)
      ensures Met(w.s.active, w.s.pool, files, imports[..i + 1], list')
    {
      hide Provides, Grown, Loading, Supplied, Wanted;
      LoadingFacts(v, w);
      var some := imports[..i + 1];
      assert some[i] == imports[i] && some[..i] == imports[..i];
      forall j | 0 <= j < |some|
        ensures Supplied(w.s.active, w.s.pool, files, some[j], list')
      {
        if j < i {
          assert imports[..i][j] == some[j];
          SuppliedLater(v, w, files, some[j], list, list');
        } else {
          SuppliedNow(w, some[j], list', p);
        }
      }
      forall k | 0 <= k < |list'|
        ensures Wanted(w.s.active, w.s.pool, files, some, list'[k])
      {
        if k < |list| {
          assert list'[k] == list[k];
          WantedLater(v, w, files, imports[..i], some, list[k]);
        } else {
          WantedNow(w, some, i, p);
        }
      }
    }

    lemma SuppliedNow(w: View, name: string, list: seq<Ptr>, p: Ptr)
      requires Provides(w.s.active, w.s.pool, files, name, p) && p in w.s.pool && (w.s.pool[p].builtin || p in list)
      ensures Supplied(w.s.active, w.s.pool, files, name, list)
    {
    }

    lemma WantedNow(w: View, imports: seq<string>, i: nat, p: Ptr)
      requires i < |imports| && Provides(w.s.active, w.s.pool, files, imports[i], p)
      ensures Wanted(w.s.active, w.s.pool, files, imports, p)
    {
    }

    /** What LdkLoadDll returns for an import stands for its name. */
    lemma LoadedProvides(v: View, w: View, name: string, p: Ptr)
      requires Loading(v, w) && Allocated(v.s.active, v.s.pool)
      requires || FindEither(v.s.active, v.s.pool, name, false) == Some(p)
               || (p in w.s.active && p in w.s.pool && !w.s.pool[p].resourceOnly
                   && name in files && w.s.pool[p].name == files[name].moduleName)
      ensures Provides(w.s.active, w.s.pool, files, name, p)
    {
      hide Lawful, Quiet, LoadHistory;
      if FindEither(v.s.active, v.s.pool, name, false) == Some(p) {
        assert Provides(v.s.active, v.s.pool, files, name, p);
        ProvidesLater(v, w, files, name, p);
      }
    }

    /** The new module takes no import away either. */
    static lemma MetBesideNewRecord(active: seq<Ptr>, pool: Pool, files: map<string, File>, imports: seq<string>,
                                    list: seq<Ptr>, p: Ptr, m: Module)
      requires Met(active, pool, files, imports, list) && p !in pool
      ensures Met(active + [p], pool[p := m], files, imports, list)
    {
      hide Provides;
      forall name, q | Provides(active, pool, files, name, q)
        ensures q in pool && Provides(active + [p], pool[p := m], files, name, q)
      {
        ProvidesBeside(active, pool, files, name, q, p, m);
      }
      forall i | 0 <= i < |imports|
        ensures Supplied(active + [p], pool[p := m], files, imports[i], list)
      {
        assert Supplied(active, pool, files, imports[i], list);
      }
      forall k | 0 <= k < |list|
        ensures Wanted(active + [p], pool[p := m], files, imports, list[k])
      {
        assert Wanted(active, pool, files, imports, list[k]);
      }
    }

    static lemma ProvidesBeside(active: seq<Ptr>, pool: Pool, files: map<string, File>, name: string, q: Ptr, p: Ptr,
                                m: Module)
      requires Provides(active, pool, files, name, q) && p !in pool
      ensures q in pool && Provides(active + [p], pool[p := m], files, name, q)
    {
    }

    /** LdkRegisterModule */
    method RegisterModule(name: string, path: string) returns (ok: bool, p: Ptr)
      requires Valid() && name in Names()
      modifies this
      ensures Valid()
      ensures p == old(nextRecord)
      ensures asked == old(asked) + [Record] && ok == granted(old(|asked|))
      ensures V() == if ok then Registered(old(V()), name, path) else old(V())
    {
      hide Lawful, Inv, Grown, Names;
      RegisterStep(V(), name, path);
      LoadingFacts(V(), Registered(V(), name, path));
      p := nextRecord;
      ok := Ask(Record);
      if ok {
        pool := pool[p := FreshModule(name, path)];
        nextRecord := nextRecord + 1;
        active := active + [p];
        held := held - multiset(FreshModule(name, path).deps) + multiset{p};
      }
    }

    /** LdkpMoveModuleDependencies, first entry first. */
    method MoveModuleDependencies(ghost v: View, p: Ptr, list: seq<Ptr>)
      requires Loading(v, V()) && p !in v.s.pool && p in pool && pool[p].Counted() && pool[p].deps == []
      requires active != [] && p == active[|active| - 1] && p !in list && Refs(list) <= held && !pool[p].attached
      modifies `pool, `held
      ensures Loading(v, V())
      ensures pool == old(pool)[p := old(pool)[p].(deps := list)]
      ensures held == old(held) - Refs(list)
    {
      hide Loading, Names, Split, Refs;
      var moved, rest := [], list;
      ghost var others := held - Refs(list);
      SplitStart(list, others, held);
      ghost var m := pool[p];
      assert pool[p := m.(deps := moved)] == pool;
      while rest != []
        invariant Split(moved, rest, list, others, held)
        invariant Loading(v, V())
        invariant pool == old(pool)[p := m.(deps := moved)]
        decreases |rest|
      {
        SplitHead(moved, rest, list, others, held);
        InsertDependency(v, p, rest[0]);
        UpdateTwice(old(pool), p, m.(deps := moved), m.(deps := moved + [rest[0]]));
        moved, rest := moved + [rest[0]], rest[1..];
      }
      SplitEnd(moved, list, others, held);
    }

    /** InsertTailList on the dependency list of a registered module. */
    method InsertDependency(ghost v: View, p: Ptr, d: Ptr)
      requires Loading(v, V()) && p !in v.s.pool && p in pool && pool[p].Counted()
      requires active != [] && p == active[|active| - 1] && p != d && d in held && !pool[p].attached
      modifies `pool, `held
      ensures Loading(v, V())
      ensures pool == old(pool)[p := old(pool)[p].(deps := old(pool)[p].deps + [d])]
      ensures held == old(held) - multiset{d}
    {
      hide Loading, Names;
      MoveStep(v, V(), p, d);
      pool := pool[p := pool[p].(deps := pool[p].deps + [d])];
      held := held - multiset{d};
    }

    /** LdkpInitializeModuleTls: the lowest free index, unless the directory is malformed or the
        block of the loading thread cannot be allocated. */
    method InitializeModuleTls(ghost v: View, p: Ptr, hasTls: bool) returns (ok: bool)
      requires Loading(v, V()) && p !in v.s.pool && p in pool && p in active && pool[p].Counted() && pool[p].tls == None
      modifies `pool, `tlsBits, `asked
      ensures Loading(v, V())
      ensures !ok ==> V() == old(V())
      ensures old(asked) <= asked && (ok ==> Served(asked, |old(asked)|))
      ensures Served(asked, |old(asked)|) && (hasTls ==> |old(tlsBits)| < tlsSlots) ==> ok
      ensures |tlsBits| <= |old(tlsBits)| + if hasTls then 1 else 0
      ensures p in pool && pool == old(pool)[p := old(pool)[p].(tls := pool[p].tls)]
      ensures pool[p].tls.Some? == (ok && hasTls)
      ensures ok && !hasTls ==> V() == old(V())
      ensures ok && hasTls ==> exists index: nat ::
                && index < tlsSlots && index !in old(tlsBits) && (forall j: nat :: j < index ==> j in old(tlsBits))
                && V() == TakeTls(old(V()), p, index)
    {
      hide Loading, Names, Served;
      ServedNext(asked, TlsDirectory);
      ServedNext(asked + [TlsDirectory], TlsBlock);
      ServedBoth(asked + [TlsDirectory], asked + [TlsDirectory] + [TlsBlock], |asked|);
      ok := !hasTls;
      if ok {
        return;
      }
      var wellFormed := Ask(TlsDirectory);
      if !wellFormed {
        return;
      }
      var index := FirstFreeIndex();
      if index < tlsSlots {
        ok := TakeIndex(v, p, index);
      }
    }

    /** RtlFindClearBits on the TLS bitmap. */
    method FirstFreeIndex() returns (index: nat)
      ensures index <= tlsSlots && (forall j: nat :: j < index ==> j in tlsBits)
      ensures index < tlsSlots ==> index !in tlsBits
      ensures |tlsBits| < tlsSlots ==> index < tlsSlots
    {
      index := 0;
      while index < tlsSlots && index in tlsBits
        invariant 0 <= index <= tlsSlots
        invariant forall j: nat :: j < index ==> j in tlsBits
      {
        index := index + 1;
      }
      AllTaken(tlsBits, index);
    }

    /** The index becomes the module's, unless the block of the loading thread cannot be allocated. */
    method TakeIndex(ghost v: View, p: Ptr, index: nat) returns (ok: bool)
      requires Loading(v, V()) && p !in v.s.pool && p in pool && p in active && pool[p].Counted() && pool[p].tls == None
      requires index !in tlsBits
      modifies `pool, `tlsBits, `asked
      ensures Loading(v, V())
      ensures V() == if ok then TakeTls(old(V()), p, index) else old(V())
      ensures asked == old(asked) + [TlsBlock] && ok == granted(old(|asked|))
      ensures |tlsBits| <= |old(tlsBits)| + 1
    {
      hide Loading, Names;
      TakeTlsStep(v, V(), p, index);
      ghost var was := pool;
      UpdateTwice(pool, p, pool[p].(tls := Some(index)), pool[p]);
      UpdateTwice(pool, p, pool[p], pool[p]);
      tlsBits := tlsBits + {index};
      pool := pool[p := pool[p].(tls := Some(index))];
      ok := Ask(TlsBlock);
      if !ok {
        tlsBits := tlsBits - {index};
        pool := pool[p := pool[p].(tls := None)];
      }
    }

    static lemma {:induction false} AllTaken(bits: set<nat>, n: nat)
      requires forall j: nat :: j < n ==> j in bits
      ensures n <= |bits|
    {
      if n > 0 {
        AllTaken(bits - {n - 1}, n - 1);
      }
    }

    /** DLL_PROCESS_ATTACH: static TLS first, then the callbacks and the entry point, which may refuse. */
    method AttachModule(ghost v: View, p: Ptr, hasTls: bool) returns (status: Status)
      requires Loading(v, V())
      requires p !in v.s.pool && p in pool && p in active && p + 1 == nextRecord
      requires pool[p].Counted() && pool[p].tls == None && p !in Called(log, ProcessAttach)
      modifies `pool, `tlsBits, `log, `asked
      ensures Loading(v, V())
      ensures p in pool && pool == old(pool)[p := old(pool)[p].(tls := pool[p].tls, attached := pool[p].attached)]
      ensures status == Success ==> pool[p].attached && pool[p].tls.Some? == hasTls
      ensures status == Success || status == Failed || status == DllInitFailed
      ensures old(asked) <= asked && (status == Success ==> Served(asked, |old(asked)|))
      ensures Served(asked, |old(asked)|) && (hasTls ==> |old(tlsBits)| < tlsSlots) ==> status == Success
      ensures status != Failed ==> asked != [] && asked[|asked| - 1] == DllMain
                                   && (status == Success <==> granted(|asked| - 1))
      ensures |tlsBits| <= |old(tlsBits)| + if hasTls then 1 else 0
    {
      hide Loading, Names, Called, Served, TakeTls;
      ghost var was := pool;
      var ok := InitializeModuleTls(v, p, hasTls);
      AttachOutcome(old(asked), asked);
      if !ok {
        return Failed;
      }
      UpdateTwice(was, p, pool[p], pool[p].(attached := true));
      status := CallAttach(v, p);
    }

    lemma AttachOutcome(before: seq<Question>, asked: seq<Question>)
      requires before <= asked
      ensures Served(asked + [DllMain], |before|) <==> Served(asked, |before|) && granted(|asked|)
      ensures before <= asked + [DllMain]
    {
      ServedNext(asked, DllMain);
      ServedBoth(asked, asked + [DllMain], |before|);
    }

    /** LDK_MODULE_FLAG_PROCESS_ATTACHED is set before the callbacks and the entry point are called. */
    method CallAttach(ghost v: View, p: Ptr) returns (status: Status)
      requires Loading(v, V())
      requires p !in v.s.pool && p in pool && p in active && p + 1 == nextRecord
      requires pool[p].Counted() && p !in Called(log, ProcessAttach)
      modifies `pool, `log, `asked
      ensures Loading(v, V())
      ensures pool == old(pool)[p := old(pool)[p].(attached := true)]
      ensures log == old(log) + [Event(ProcessAttach, p, old(pool)[p].deps)]
      ensures asked == old(asked) + [DllMain]
      ensures status == if granted(old(|asked|)) then Success else DllInitFailed
    {
      hide Loading, Names, Called;
      AttachStep(v, V(), p);
      log := log + [Event(ProcessAttach, p, pool[p].deps)];
      pool := pool[p := pool[p].(attached := true)];
      var accepted := Ask(DllMain);
      status := if accepted then Success else DllInitFailed;
    }

    /** A module that failed to attach is unloaded again, with everything it alone kept. */
    method RollBack(ghost v: View, p: Ptr)
      requires Lawful(v) && Quiet(v.s) && Loading(v, V())
      requires p in held && v.s.held <= held - multiset{p}
      modifies this
      ensures Lawful(V()) && Quiet(S()) && Loading(v, V())
      ensures asked == old(asked) && tlsBits <= old(tlsBits)
      ensures held == old(held) - multiset{p} && NamesKept(old(pool), pool)
    {
      hide Loading, Names, Lawful, Inv, Collected, Called;
      ghost var w := V();
      LoadingFacts(v, w);
      LawfulFacts(w);
      var _ := UnloadDll(p);
      LoadingThenRelease(v, w, V());
      LoadingFacts(v, V());
    }

    /** The end of LdkLoadDll: what happens to a module once it is registered. */
    method FinishLoad(ghost v: View, p: Ptr, file: File, resolve: bool, resourceOnly: bool)
      returns (status: Status)
      requires Lawful(v) && Quiet(v.s) && Loading(v, V())
      requires p !in v.s.pool && p in pool && p in active && p + 1 == nextRecord && p in held
      requires pool[p].Counted() && pool[p].tls == None && p !in Called(log, ProcessAttach)
      requires v.s.held <= held - multiset{p}
      modifies this
      ensures Loading(v, V()) && NamesKept(old(pool), pool)
      ensures status == Success || status == Failed || status == DllInitFailed
      ensures Decided(old(asked), asked, status, resolve && file.hasTls ==> |old(tlsBits)| < tlsSlots)
      ensures status == Success && resolve ==> asked != [] && asked[|asked| - 1] == DllMain
      ensures |tlsBits| <= |old(tlsBits)| + if resolve && file.hasTls then 1 else 0
      ensures status == Success ==> held == old(held) && p in active && p in pool
      ensures status == Success ==>
                pool[p] == old(pool)[p].(tls := pool[p].tls,
                                         attached := resolve || old(pool)[p].attached,
                                         resourceOnly := resourceOnly || old(pool)[p].resourceOnly)
                && pool[p].tls.Some? == (resolve && file.hasTls)
                && active == old(active) && pool == old(pool)[p := pool[p]]
      ensures status != Success ==> held == old(held) - multiset{p}
    {
      hide Loading, Names, Lawful, Called, NamesKept, SameHistory, Collected, Served;
      ServedNext(asked, DllMain);
      ghost var was := pool;
      if resourceOnly {
        ResourceOnlyStep(v, V(), p);
        pool := pool[p := pool[p].(resourceOnly := true)];
      }
      status := Success;
      if resolve {
        UpdateTwice(was, p, pool[p], pool[p].(attached := true));
        status := AttachModule(v, p, file.hasTls);
        ghost var attached := pool;
        assert attached == was[p := pool[p]];
        if status != Success {
          ghost var bits := tlsBits;
          RollBack(v, p);
          FewerBits(bits, tlsBits);
        }
        NamesKeptOn(was, p, attached, pool);
      } else {
        SameNames(pool);
        NamesKeptOn(was, p, pool, pool);
      }
    }

    static lemma FewerBits(bits: set<nat>, bits': set<nat>)
      requires bits' <= bits
      ensures |bits'| <= |bits|
    {
      if bits' != {} {
        var b :| b in bits';
        FewerBits(bits - {b}, bits' - {b});
      }
    }

    /** One record keeps its name, and so do those that stay later on. */
    static lemma NamesKeptOn(pool: Pool, p: Ptr, pool': Pool, pool'': Pool)
      requires p in pool && p in pool' && pool'[p].name == pool[p].name && pool' == pool[p := pool'[p]]
      requires NamesKept(pool', pool'')
      ensures NamesKept(pool, pool'')
    {
    }

    // ---------------------------------------------------------------- what a load needs

    /** No built-in module has the suffixed name of an import; one that has is found, and turned down. */
    static ghost predicate SuffixFree(s: State, name: string) {
      forall p :: p in s.active && p in s.pool && s.pool[p].builtin ==> !SameName(s.pool[p].name, name + ".dll")
    }

    /** The file is there, and so is everything it imports. */
    ghost predicate Ready(s: State, name: string)
      requires WellFounded() && Allocated(s.active, s.pool)
      decreases rank(name), 0
    {
      name in files && forall k :: 0 <= k < |files[name].imports| ==> ReadyImport(s, files[name].imports[k])
    }

    ghost predicate ReadyImport(s: State, name: string)
      requires WellFounded() && Allocated(s.active, s.pool)
      decreases rank(name), 1
    {
      Lookup(s.active, s.pool, name, false).Some? || (SuffixFree(s, name) && Ready(s, name))
    }

    lemma {:induction false} ReadyLater(v: View, w: View, name: string)
      requires WellFounded() && Allocated(v.s.active, v.s.pool) && Allocated(w.s.active, w.s.pool) && Grown(v.s, w.s)
      requires Ready(v.s, name)
      ensures Ready(w.s, name)
      decreases rank(name), 0
    {
      hide Grown, ReadyImport;
      forall k | 0 <= k < |files[name].imports|
        ensures ReadyImport(w.s, files[name].imports[k])
      {
        ReadyImportLater(v, w, files[name].imports[k]);
      }
    }

    lemma {:induction false} ReadyImportLater(v: View, w: View, name: string)
      requires WellFounded() && Allocated(v.s.active, v.s.pool) && Allocated(w.s.active, w.s.pool) && Grown(v.s, w.s)
      requires ReadyImport(v.s, name)
      ensures ReadyImport(w.s, name)
      decreases rank(name), 1
    {
      hide Grown, Ready, WellFounded, Lookup, SuffixFree;
      LookupLater(v.s, w.s, name);
      SuffixFreeLater(v.s, w.s, name);
      if Lookup(v.s.active, v.s.pool, name, false).None? {
        ReadyLater(v, w, name);
      }
    }

    static lemma LookupLater(s: State, s': State, name: string)
      requires Allocated(s.active, s.pool) && Allocated(s'.active, s'.pool) && Grown(s, s')
      ensures Lookup(s.active, s.pool, name, false).Some? ==> Lookup(s'.active, s'.pool, name, false).Some?
    {
      var r := Lookup(s.active, s.pool, name, false);
      if r.Some? {
        GrownMembers(s, s');
        assert s.pool[r.value].SameButCount(s'.pool[r.value]);
      }
    }

    static lemma SuffixFreeLater(s: State, s': State, name: string)
      requires Allocated(s.active, s.pool) && Allocated(s'.active, s'.pool) && Grown(s, s')
      ensures SuffixFree(s, name) ==> SuffixFree(s', name)
    {
      GrownMembers(s, s');
      forall p | p in s'.active && p in s.active
        ensures s'.pool[p].builtin == s.pool[p].builtin && s'.pool[p].name == s.pool[p].name
      {
        assert s.pool[p].SameButCount(s'.pool[p]);
      }
    }

    /** At most as many TLS indices as that are taken by a load of the file. */
    ghost function TlsNeeds(name: string): nat
      requires WellFounded()
      decreases rank(name), 1, 0
    {
      if name in files then NeedsUpTo(name, |files[name].imports|) + (if files[name].hasTls then 1 else 0) else 0
    }

    ghost function NeedsUpTo(name: string, k: nat): nat
      requires WellFounded() && name in files && k <= |files[name].imports|
      decreases rank(name), 0, k
    {
      if k == 0 then 0 else NeedsUpTo(name, k - 1) + TlsNeeds(files[name].imports[k - 1])
    }

    lemma {:induction false} NeedsGrow(name: string, k: nat, n: nat)
      requires WellFounded() && name in files && k <= n <= |files[name].imports|
      ensures NeedsUpTo(name, k) <= NeedsUpTo(name, n)
      decreases n
    {
      if k < n {
        NeedsGrow(name, k, n - 1);
      }
    }

    lemma NothingNeeded(name: string)
      requires WellFounded() && name in files
      ensures NeedsUpTo(name, 0) == 0
    {
    }

    /** Files and TLS indices enough for a load, for its imports alone, and for one import. */
    ghost predicate CanLoad(s: State, bits: set<nat>, name: string) {
      WellFounded() && Allocated(s.active, s.pool) && Ready(s, name) && |bits| + TlsNeeds(name) <= tlsSlots
    }

    ghost predicate CanWalk(s: State, bits: set<nat>, name: string) {
      && WellFounded() && Allocated(s.active, s.pool) && Ready(s, name)
      && |bits| + NeedsUpTo(name, |files[name].imports|) <= tlsSlots
    }

    ghost predicate CanImport(s: State, bits: set<nat>, name: string) {
      && WellFounded() && Allocated(s.active, s.pool)
      && (Lookup(s.active, s.pool, name, false).Some? || (SuffixFree(s, name) && CanLoad(s, bits, name)))
    }

    lemma CanLoadFacts(s: State, bits: set<nat>, name: string)
      requires WellFounded() && name in files
      ensures CanLoad(s, bits, name) ==> CanWalk(s, bits, name)
      ensures CanLoad(s, bits, name) ==> |bits| + TlsNeeds(name) <= tlsSlots
      ensures TlsNeeds(name) == NeedsUpTo(name, |files[name].imports|) + if files[name].hasTls then 1 else 0
    {
    }

    lemma FilesOfLoad(s: State, bits: set<nat>, name: string)
      ensures CanLoad(s, bits, name) ==> name in files
    {
    }

    /** What the walk over the imports has used up so far leaves enough for the next. */
    lemma CanImportNext(v: View, w: View, name: string, i: nat)
      requires WellFounded() && name in files && i < |files[name].imports|
      requires Allocated(w.s.active, w.s.pool) && Loading(v, w)
      requires |w.bits| <= |v.bits| + NeedsUpTo(name, i)
      ensures CanWalk(v.s, v.bits, name) ==> CanImport(w.s, w.bits, files[name].imports[i])
      ensures NeedsUpTo(name, i + 1) == NeedsUpTo(name, i) + TlsNeeds(files[name].imports[i])
    {
      hide WellFounded, Lookup, SuffixFree, Grown, Lawful, TlsNeeds;
      LoadingFacts(v, w);
      if CanWalk(v.s, v.bits, name) {
        NeedsGrow(name, i + 1, |files[name].imports|);
        assert ReadyImport(v.s, files[name].imports[i]);
        ReadyImportLater(v, w, files[name].imports[i]);
      }
    }

    // ---------------------------------------------------------------- the recursion over imports

    lemma ImportsRankLower(name: string, imported: string)
      requires WellFounded() && name in files && imported in files[name].imports
      ensures rank(imported) < rank(name)
    {
    }

    /** LdkpResolveImportModule.  `own` is the reference this call leaks: the loaded module was
        reached under its suffixed name although it is a dependency already. */
    method ResolveImportModule(ghost from: string, name: string, list: seq<Ptr>)
      returns (status: Status, p: Ptr, list': seq<Ptr>,
               ghost looked: bool, ghost own: multiset<Ptr>, ghost nested: multiset<Ptr>)
      requires Valid() && from in files && name in files[from].imports
      requires Refs(list) <= held
      modifies this
      ensures Valid() && Loading(old(V()), V())
      ensures status == Saturated ==> AtLimit(S())
      ensures Decided(old(asked), asked, status, old(CanImport(S(), tlsBits, name)))
      ensures |tlsBits| <= |old(tlsBits)| + TlsNeeds(name)
      ensures status != Saturated ==> Exchanged(old(held), list, held, list', own + nested)
      ensures status != Saturated ==> LeaksOfImport(name, own + nested, pool)
      ensures status == Success ==>
                p in active && p in pool && list' == if pool[p].builtin || p in list then list else Snoc(list, p)
      ensures status == Success ==> Provides(active, pool, files, name, p)
      ensures status != Success ==> list' == list
      ensures status != Saturated ==>
                own == if status == Success && looked && Aliased(old(active), old(pool), name, list)
                       then multiset{p} else multiset{}
      ensures status == Success && looked && Aliased(old(active), old(pool), name, list) ==>
                FindEither(old(active), old(pool), name, false) == Some(p)
      ensures status == Success ==> Origin(old(S()), active, pool, files, name, looked, p, nested)
      decreases rank(name), 2
    {
      hide WellFounded, Lawful, Inv, Grown, Names, Edges, Loading, Collected, SameHistory;
      hide Quiet, Exchanged, Refs, Lookup, Snoc, AfterReference, Provides, SuffixedImport, Aliased, AtLimit;
      hide FindEither, Decided, Served, CanImport, TlsNeeds;
      LawfulFacts(V());
      looked, own, nested := false, multiset{}, multiset{};
      var found := GetModuleByName(name, false);
      if found.Some? {
        p := found.value;
        ghost var enough := CanImport(S(), tlsBits, name);
        status, list' := ReferToImport(name, p, list);
        DecidedLess(old(asked), asked, status, true, enough);
      } else {
        status, p, list', looked, own, nested := LoadImport(from, name, list);
      }
    }

    /** The branch of LdkpResolveImportModule for a name that is registered. */
    method ReferToImport(name: string, p: Ptr, list: seq<Ptr>) returns (status: Status, list': seq<Ptr>)
      requires Valid() && Refs(list) <= held && Allocated(active, pool) && Lookup(active, pool, name, false) == Some(p)
      modifies this
      ensures Valid() && Loading(old(V()), V())
      ensures status == Saturated ==> AtLimit(S())
      ensures Decided(old(asked), asked, status, true) && tlsBits == old(tlsBits)
      ensures Exchanged(old(held), list, held, list', multiset{} + multiset{})
      ensures p in active && p in pool && Provides(active, pool, files, name, p)
      ensures status == Success ==> list' == if pool[p].builtin || p in list then list else Snoc(list, p)
      ensures status != Success ==> list' == list
    {
      hide WellFounded, Lawful, Inv, Grown, Names, Edges, Loading, Collected, SameHistory, Quiet, Exchanged;
      hide Refs, Lookup, Snoc, AfterReference, Provides, Decided, Served;
      ghost var v := V();
      LawfulFacts(v);
      status, list' := AddModuleDependency(list, p, true);
      LoadedProvides(v, V(), name, p);
      assert held + (multiset{} + multiset{}) == held;
      if list' == list {
        ExchangedKeep(v.s.held, list, held, multiset{} + multiset{});
      } else {
        ExchangedAdd(v.s.held, list, p, held, multiset{} + multiset{});
      }
    }

    /** The branch of LdkpResolveImportModule for a name that is not registered. */
    method LoadImport(ghost from: string, name: string, list: seq<Ptr>)
      returns (status: Status, p: Ptr, list': seq<Ptr>,
               ghost looked: bool, ghost own: multiset<Ptr>, ghost nested: multiset<Ptr>)
      requires Valid() && from in files && name in files[from].imports
      requires Refs(list) <= held && Lookup(active, pool, name, false).None?
      modifies this
      ensures Valid() && Loading(old(V()), V())
      ensures status == Saturated ==> AtLimit(S())
      ensures Decided(old(asked), asked, status, old(CanImport(S(), tlsBits, name)))
      ensures |tlsBits| <= |old(tlsBits)| + TlsNeeds(name)
      ensures status != Saturated ==> Exchanged(old(held), list, held, list', own + nested)
      ensures status != Saturated ==> LeaksOfImport(name, own + nested, pool)
      ensures status == Success ==>
                p in active && p in pool && list' == if pool[p].builtin || p in list then list else Snoc(list, p)
      ensures looked == (granted(old(|asked|)) && granted(old(|asked|) + 1))
      ensures status == Success ==> Provides(active, pool, files, name, p)
      ensures status != Success ==> list' == list
      ensures status != Saturated ==>
                own == if status == Success && looked && Aliased(old(active), old(pool), name, list)
                       then multiset{p} else multiset{}
      ensures status == Success && looked && Aliased(old(active), old(pool), name, list) ==>
                FindEither(old(active), old(pool), name, false) == Some(p)
      ensures status == Success ==> Origin(old(S()), active, pool, files, name, looked, p, nested)
      decreases rank(name), 1, 2
    {
      hide WellFounded, Lawful, Inv, Grown, Names, Edges, Loading, Collected, SameHistory, Aliased;
      hide Quiet, Exchanged, Refs, Lookup, FindEither, Snoc, AfterReference;
      hide Provides, Met, SuffixedImport, Origin, Decided, Served, SuffixFree, CanImport, CanLoad, TlsNeeds;
      hide LeaksOfImport, AtLimit;
      ghost var v := V();
      LawfulFacts(v);
      list', own := list, multiset{};
      ghost var enough, able := CanImport(v.s, v.bits, name), CanLoad(v.s, v.bits, name);
      NotRegistered(v.s, v.bits, name);
      status, p, looked, nested := LoadUnregistered(from, name, list);
      ghost var first, before, bits, loadedBuiltin := status, asked, tlsBits, false;
      if status == Success {
        loadedBuiltin := pool[p].builtin;
        ghost var loaded, all := pool, nested + (if p in list then multiset{p} else multiset{});
        status, list', own := KeepImport(v, name, p, list, nested);
        LawfulFacts(V());
        NestedIsHeld(v, list, list', own, nested);
        ImportLeaksStay(name, all, own + nested, loaded, pool);
      } else if status != Saturated {
        ExchangedNothing(v.s.held, list, held, nested);
        assert multiset{} + nested == nested;
      }
      DecidedThen(old(asked), before, asked, first, status, able, !loadedBuiltin, enough);
      FewerBits(bits, tlsBits);
    }

    lemma NotRegistered(s: State, bits: set<nat>, name: string)
      requires WellFounded() && Allocated(s.active, s.pool) && Lookup(s.active, s.pool, name, false).None?
      ensures CanImport(s, bits, name) <==> SuffixFree(s, name) && CanLoad(s, bits, name)
    {
    }

    lemma NestedIsHeld(v: View, list: seq<Ptr>, list': seq<Ptr>, own: multiset<Ptr>, nested: multiset<Ptr>)
      requires Exchanged(v.s.held, list, held, list', own + nested)
      ensures own + nested <= held
    {
    }

    lemma ExchangedNothing(held0: multiset<Ptr>, list: seq<Ptr>, held1: multiset<Ptr>, nested: multiset<Ptr>)
      requires Refs(list) <= held0 && held1 == held0 + nested
      ensures Exchanged(held0, list, held1, list, multiset{} + nested)
    {
      assert multiset{} + nested == nested;
      ExchangedKeep(held0, list, held1, multiset{} + nested);
    }

    /** LdkLoadDll as LdkpResolveImportModule calls it: only an alias yields a module in `list`. */
    method LoadUnregistered(ghost from: string, name: string, ghost list: seq<Ptr>)
      returns (status: Status, p: Ptr, ghost looked: bool, ghost nested: multiset<Ptr>)
      requires Valid() && from in files && name in files[from].imports
      requires Refs(list) <= held && Lookup(active, pool, name, false).None?
      modifies this
      ensures Valid() && Loading(old(V()), V())
      ensures status == Saturated ==> AtLimit(S())
      ensures Decided(old(asked), asked, status, old(CanLoad(S(), tlsBits, name)))
      ensures |tlsBits| <= |old(tlsBits)| + TlsNeeds(name)
      ensures looked == (granted(old(|asked|)) && granted(old(|asked|) + 1))
      ensures status == Success ==> p in active && p in pool && Provides(active, pool, files, name, p)
      ensures status == Success && p in pool && old(SuffixFree(S(), name)) ==> !pool[p].builtin
      ensures status == Success ==> (p in list <==> looked && Aliased(old(active), old(pool), name, list))
      ensures status == Success && !pool[p].builtin ==> held == old(held) + nested + multiset{p}
      ensures status == Success && pool[p].builtin ==> held == old(held) + nested
      ensures status == Success && pool[p].builtin ==>
                Allocated(active, pool) && Lookup(active, pool, name, false).None?
      ensures status != Success && status != Saturated ==> held == old(held) + nested
      ensures status != Saturated ==> LeaksOfImport(name, nested, pool)
      ensures status == Success ==>
                LeaksOfImport(name, nested + (if p in list then multiset{p} else multiset{}), pool)
      ensures status == Success && looked && Aliased(old(active), old(pool), name, list) ==>
                FindEither(old(active), old(pool), name, false) == Some(p)
      ensures status == Success ==> Origin(old(S()), active, pool, files, name, looked, p, nested)
      decreases rank(name), 1, 1
    {
      hide WellFounded, Lawful, Inv, Grown, Names, Edges, Loading, Collected, SameHistory;
      hide Quiet, Refs, Lookup, FindEither, AfterReference, LeaksOf, LeaksOfImport, AtLimit;
      hide Provides, Met, Suffixed, Decided, Served, CanLoad, SuffixFree, TlsNeeds;
      ghost var v := V();
      LoadingReflexive(v);
      LawfulFacts(v);
      NoLeaks(name, pool);
      status, p, looked, nested := Failed, 0, false, multiset{};
      ghost var enough := CanLoad(S(), tlsBits, name);
      DecidedByAnswer(asked, ToUnicode, if granted(|asked|) then Success else Failed, true);
      var converted := Ask(ToUnicode);
      ghost var before := asked;
      if converted {
        ghost var walk;
        status, p, looked, walk, nested := LoadDll(name, true, false);
        LoadingFacts(v, V());
        LawfulFacts(V());
        if p !in v.s.pool {
          FreshIsNotInHand(v, list, p);
        }
        if status == Success {
          LoadedProvides(v, V(), name, p);
          AliasIsSuffixed(v, V(), name, list, p);
          if SuffixFree(v.s, name) {
            NoBuiltinFound(v, V(), name, p);
          }
        }
      }
      DecidedThen(old(asked), before, asked, if converted then Success else Failed, status, true, enough, enough);
      NestedLeaks(name, nested, p, list);
    }

    /** What is found under a suffixed name no built-in module has is none. */
    static lemma NoBuiltinFound(v: View, w: View, name: string, p: Ptr)
      requires Allocated(v.s.active, v.s.pool) && Loading(v, w) && p in w.s.pool
      requires Lookup(v.s.active, v.s.pool, name, false).None? && SuffixFree(v.s, name)
      ensures FindEither(v.s.active, v.s.pool, name, false) == Some(p) ==> !w.s.pool[p].builtin
    {
      hide Lawful, Quiet, LoadHistory;
      if FindEither(v.s.active, v.s.pool, name, false) == Some(p) {
        assert v.s.pool[p].SameButCount(w.s.pool[p]);
      }
    }

    lemma NestedLeaks(name: string, nested: multiset<Ptr>, p: Ptr, list: seq<Ptr>)
      requires WellFounded()
      ensures LeaksOf(name, nested, pool) ==> LeaksOfImport(name, nested, pool)
      ensures LeaksOf(name, nested, pool) && p in pool && (p in list ==> SameName(pool[p].name, name + ".dll")) ==>
                LeaksOfImport(name, nested + (if p in list then multiset{p} else multiset{}), pool)
    {
      hide Suffixed;
    }

    /** An alias is registered under the suffixed name. */
    lemma AliasIsSuffixed(v: View, w: View, name: string, list: seq<Ptr>, p: Ptr)
      requires Allocated(v.s.active, v.s.pool) && Grown(v.s, w.s) && p in w.s.pool
      ensures Aliased(v.s.active, v.s.pool, name, list) && FindEither(v.s.active, v.s.pool, name, false) == Some(p) ==>
                SameName(w.s.pool[p].name, name + ".dll")
    {
      if Aliased(v.s.active, v.s.pool, name, list) && FindEither(v.s.active, v.s.pool, name, false) == Some(p) {
        assert v.s.pool[p].SameButCount(w.s.pool[p]);
      }
    }

    /** What LdkpResolveImportModule does with a module it has just loaded. */
    method KeepImport(ghost v: View, name: string, p: Ptr, list: seq<Ptr>, ghost nested: multiset<Ptr>)
      returns (status: Status, list': seq<Ptr>, ghost own: multiset<Ptr>)
      requires Lawful(v) && Quiet(v.s) && Loading(v, V()) && WellFounded()
      requires p in pool && p in active && Refs(list) <= v.s.held
      requires pool[p].builtin ==> Lookup(active, pool, name, false).None?
      requires !pool[p].builtin ==> held == v.s.held + nested + multiset{p}
      requires pool[p].builtin ==> held == v.s.held + nested
      modifies this
      ensures Valid() && Loading(v, V()) && NamesKept(old(pool), pool)
      ensures status == Success || status == Failed
      ensures Decided(old(asked), asked, status, !old(pool)[p].builtin) && tlsBits <= old(tlsBits)
      ensures Exchanged(v.s.held, list, held, list', own + nested)
      ensures status == Success ==>
                p in active && p in pool && !pool[p].builtin && list' == if p in list then list else Snoc(list, p)
      ensures status == Success ==> active == old(active) && pool == old(pool)
      ensures status != Success ==> list' == list
      ensures own == if status == Success && p in list then multiset{p} else multiset{}
    {
      hide WellFounded, Lawful, Inv, Grown, Names, Loading, SameHistory, Quiet, Exchanged, Refs, Lookup, Snoc;
      hide Decided, Served;
      LoadingFacts(v, V());
      LawfulFacts(V());
      if pool[p].builtin {
        // A built-in module has no image base, so it is looked up by name once more, in vain.
        var again := GetModuleByName(name, false);
        assert again.None?;
        ReleaseBuiltin(v, p);
        status, list', own := Failed, list, multiset{};
        DecidedUnasked(asked, Failed, false);
        ExchangedKeep(v.s.held, list, held, own + nested);
      } else {
        status, list', own := RecordImport(v, p, list, nested);
      }
    }

    /** Record the dependency, or give the reference back when there is no room for the entry. */
    method RecordImport(ghost v: View, p: Ptr, list: seq<Ptr>, ghost nested: multiset<Ptr>)
      returns (status: Status, list': seq<Ptr>, ghost own: multiset<Ptr>)
      requires Lawful(v) && Quiet(v.s) && Loading(v, V()) && WellFounded()
      requires p in pool && p in active && Refs(list) <= v.s.held && !pool[p].builtin
      requires held == v.s.held + nested + multiset{p}
      modifies this
      ensures Valid() && Loading(v, V()) && NamesKept(old(pool), pool)
      ensures status == Success || status == Failed
      ensures Decided(old(asked), asked, status, true) && tlsBits <= old(tlsBits)
      ensures Exchanged(v.s.held, list, held, list', own + nested)
      ensures status == Success ==>
                p in active && p in pool && !pool[p].builtin && list' == if p in list then list else Snoc(list, p)
      ensures status == Success ==> active == old(active) && pool == old(pool)
      ensures status != Success ==> list' == list
      ensures own == if status == Success && p in list then multiset{p} else multiset{}
    {
      hide WellFounded, Lawful, Inv, Grown, Names, Loading, Quiet, Exchanged, Refs, Snoc, AfterReference;
      hide NamesKept, AtLimit, Edges, Decided, Served;
      LoadingFacts(v, V());
      GivenBack(v.s.held, nested, p);
      status, list' := AddModuleDependency(list, p, false);
      own := if status == Success && p in list then multiset{p} else multiset{};
      SameNames(pool);
      if status == Success && p !in list {
        ExchangedAdd(v.s.held, list, p, held, own + nested);
      } else {
        if status != Success {
          RollBack(v, p);
        }
        ExchangedKeep(v.s.held, list, held, own + nested);
      }
    }

    static lemma SameNames(pool: Pool)
      ensures NamesKept(pool, pool)
    {
    }

    /** The reference of a load, kept or given back. */
    static lemma GivenBack(held: multiset<Ptr>, nested: multiset<Ptr>, p: Ptr)
      ensures var taken := held + nested + multiset{p};
              && p in taken && held <= taken - multiset{p}
              && taken - multiset{p} == held + (multiset{} + nested)
              && taken == held + (multiset{p} + nested) == held + (multiset{} + nested) + multiset{p}
    {
    }

    /** LdkUnloadDll on the handle of a built-in module. */
    method ReleaseBuiltin(ghost v: View, p: Ptr)
      requires Lawful(v) && Quiet(v.s) && Loading(v, V())
      requires p in active && p in pool && pool[p].builtin && v.s.held <= held
      modifies this
      ensures Lawful(V()) && Quiet(S()) && Loading(v, V())
      ensures asked == old(asked) && tlsBits <= old(tlsBits)
      ensures held == old(held) && NamesKept(old(pool), pool)
    {
      hide Loading, Names, Lawful, Inv, Collected, SameHistory, Quiet;
      ghost var w := V();
      LoadingFacts(v, w);
      var _ := UnloadDll(p);
      ReleasedAgain(v, w, V());
    }

    /** LdkpLoadDll with LdkpWalkImportDescriptors: read and relocate the image, then resolve its
        imports in order and bind their thunks.  On failure the entries so far are handed back. */
    method LoadImage(name: string, resolve: bool)
      returns (status: Status, list: seq<Ptr>, ghost walk: seq<Resolution>, ghost leaked: multiset<Ptr>)
      requires Valid() && name in files
      modifies this
      ensures Valid() && Loading(old(V()), V())
      ensures status == Saturated ==> AtLimit(S())
      ensures Decided(old(asked), asked, status, resolve ==> old(CanWalk(S(), tlsBits, name)))
      ensures |tlsBits| <= |old(tlsBits)| + if resolve then NeedsUpTo(name, |files[name].imports|) else 0
      ensures status != Saturated ==> Carrying(old(V()), V(), list, leaked) && LeaksOf(name, leaked, pool)
      ensures !resolve ==> status != Saturated && list == [] && leaked == multiset{} && V() == old(V())
      ensures status == Success && resolve ==>
                Met(active, pool, files, files[name].imports, list)
                && Walked(old(V()), files[name].imports, walk) && leaked == LeakedBy(walk)
      decreases rank(name), 0, 2
    {
      hide WellFounded, Lawful, Inv, Grown, Names, Edges, Loading, Quiet, Exchanged, Carrying;
      hide Met, Suffixed, Walked, Decided, Served, CanWalk, NeedsUpTo;
      ghost var v := V();
      CarryingNothing(v);
      LoadingReflexive(v);
      ghost var enough := CanWalk(v.s, v.bits, name);
      DecidedByAnswer(asked, ReadImage, if granted(|asked|) then Success else Failed, true);
      var mapped := Ask(ReadImage);
      ghost var first, before := if mapped then Success else Failed, asked;
      status, list, walk, leaked := if mapped then Success else Failed, [], [], multiset{};
      if mapped && resolve {
        status, list, walk, leaked := WalkImports(name);
      } else {
        DecidedUnasked(asked, Success, resolve ==> enough);
      }
      DecidedThen(old(asked), before, asked, first, status, true, resolve ==> enough, resolve ==> enough);
    }

    /** LdkpBuildImportDescriptors, up to the first import that cannot be resolved or bound. */
    method WalkImports(name: string)
      returns (status: Status, list: seq<Ptr>, ghost walk: seq<Resolution>, ghost leaked: multiset<Ptr>)
      requires Valid() && name in files
      modifies this
      ensures Valid() && Loading(old(V()), V())
      ensures status == Saturated ==> AtLimit(S())
      ensures Decided(old(asked), asked, status, old(CanWalk(S(), tlsBits, name)))
      ensures |tlsBits| <= |old(tlsBits)| + NeedsUpTo(name, |files[name].imports|)
      ensures status != Saturated ==> Carrying(old(V()), V(), list, leaked) && LeaksOf(name, leaked, pool)
      ensures status == Success ==>
                Met(active, pool, files, files[name].imports, list)
                && Walked(old(V()), files[name].imports, walk) && leaked == LeakedBy(walk)
      decreases rank(name), 0, 1
    {
      hide WellFounded, Lawful, Inv, Grown, Names, Loading, Quiet, Exchanged, Walking, Provides, Suffixed, SuffixFree;
      hide Carrying, Met, LeaksOf, Walked, LeakedBy, Decided, Served, CanWalk, CanImport, TlsNeeds, NeedsUpTo, AtLimit;
      ghost var v := V();
      ghost var enough := CanWalk(v.s, v.bits, name);
      DecidedUnasked(asked, Success, enough);
      NothingNeeded(name);
      list, walk, leaked := [], [], multiset{};
      status := Success;
      WalkBegins(v, name);
      var i := 0;
      while i < |files[name].imports|
        invariant 0 <= i <= |files[name].imports| && status == Success
        invariant Valid() && Walking(v, V(), name, i, list, walk, leaked)
        invariant Decided(old(asked), asked, Success, enough) && |tlsBits| <= |v.bits| + NeedsUpTo(name, i)
      {
        ghost var start, able := asked, CanImport(S(), tlsBits, files[name].imports[i]);
        WalkingFacts(v, V(), name, i, list, walk, leaked);
        CanImportNext(v, V(), name, i);
        NeedsGrow(name, i + 1, |files[name].imports|);
        status, list, walk, leaked := ResolveAndBind(v, name, i, list, walk, leaked);
        DecidedThen(old(asked), start, asked, Success, status, enough, able, enough);
        if status != Success {
          return;
        }
        i := i + 1;
      }
      WalkEnds(v, V(), name, list, walk, leaked);
    }

    /** The walk has resolved and bound the first `i` imports. */
    ghost predicate Walking(v: View, w: View, name: string, i: nat, list: seq<Ptr>, walk: seq<Resolution>,
                            leaked: multiset<Ptr>)
      requires WellFounded() && name in files && i <= |files[name].imports|
    {
      && Lawful(v) && Quiet(v.s) && Allocated(w.s.active, w.s.pool)
      && Loading(v, w) && Carrying(v, w, list, leaked) && LeaksOf(name, leaked, w.s.pool)
      && Met(w.s.active, w.s.pool, files, files[name].imports[..i], list)
      && Walked(v, files[name].imports[..i], walk) && leaked == LeakedBy(walk)
      && After(v, walk) == w && ListAfter(walk) == list
    }

    lemma WalkBegins(v: View, name: string)
      requires Lawful(v) && Quiet(v.s) && WellFounded() && name in files
      ensures Walking(v, v, name, 0, [], [], multiset{})
    {
      hide Lawful, Quiet, Loading, Carrying, Met, LeaksOf, Walked;
      LawfulFacts(v);
      CarryingNothing(v);
      LoadingReflexive(v);
      NoLeaks(name, v.s.pool);
      NoneMet(v.s.active, v.s.pool, files, files[name].imports);
      NoneWalked(v, files[name].imports);
    }

    lemma WalkingFacts(v: View, w: View, name: string, i: nat, list: seq<Ptr>, walk: seq<Resolution>,
                       leaked: multiset<Ptr>)
      requires WellFounded() && name in files && i <= |files[name].imports|
      requires Walking(v, w, name, i, list, walk, leaked)
      ensures Loading(v, w) && Refs(list) <= w.s.held && Lawful(v) && Quiet(v.s) && Allocated(w.s.active, w.s.pool)
    {
      hide Lawful, Quiet, Loading, Met, LeaksOf, Walked;
      CarryingFacts(v, w, list, leaked);
    }

    lemma WalkEnds(v: View, w: View, name: string, list: seq<Ptr>, walk: seq<Resolution>, leaked: multiset<Ptr>)
      requires WellFounded() && name in files
      requires Walking(v, w, name, |files[name].imports|, list, walk, leaked)
      ensures Loading(v, w) && Carrying(v, w, list, leaked) && LeaksOf(name, leaked, w.s.pool)
      ensures Met(w.s.active, w.s.pool, files, files[name].imports, list)
      ensures Walked(v, files[name].imports, walk) && leaked == LeakedBy(walk)
    {
      hide Lawful, Quiet, Loading, Carrying, Met, LeaksOf, Walked;
      assert files[name].imports[..|files[name].imports|] == files[name].imports;
    }

    /** One more import of the walk. */
    lemma WalkGoesOn(v: View, w: View, name: string, i: nat, list: seq<Ptr>, walk: seq<Resolution>,
                     leaked: multiset<Ptr>, r: Resolution)
      requires WellFounded() && name in files && i < |files[name].imports| && Walking(v, w, name, i, list, walk, leaked)
      requires r.before == w && r.list == list && Resolves(files[name].imports[i], r)
      requires Allocated(r.after.s.active, r.after.s.pool)
      ensures Walking(v, r.after, name, i + 1, r.list', walk + [r], leaked + (r.own + r.nested))
    {
      hide Lawful, Quiet, Loading, Carrying, Met, LeaksOf, LeaksOfImport, Walked, Provides, Origin, Aliased, Exchanged;
      hide LeakedBy, WellFounded, Supplied, Wanted;
      WalkLeaks(v, w, name, i, list, leaked, r);
      WalkedOn(v, files[name].imports, i, walk, r);
      OneMoreMet(w, r.after, files[name].imports, i, list, r.list', r.target);
    }

    /** The same for an import that may have failed. */
    lemma WalkLeaks(v: View, w: View, name: string, i: nat, list: seq<Ptr>, leaked: multiset<Ptr>, r: Resolution)
      requires WellFounded() && name in files && i < |files[name].imports|
      requires Carrying(v, w, list, leaked) && LeaksOf(name, leaked, w.s.pool)
      requires r.before == w && r.list == list && Loading(w, r.after)
      requires Exchanged(w.s.held, list, r.after.s.held, r.list', r.own + r.nested)
      requires LeaksOfImport(files[name].imports[i], r.own + r.nested, r.after.s.pool)
      ensures Loading(v, r.after) && Carrying(v, r.after, r.list', leaked + (r.own + r.nested))
      ensures LeaksOf(name, leaked + (r.own + r.nested), r.after.s.pool)
    {
      hide Loading, Exchanged, LeaksOf, LeaksOfImport, WellFounded;
      CarryingStep(v, w, list, leaked, r.after, r.list', r.own + r.nested);
      LoadingTransitive(v, w, r.after);
      LeaksAdd(name, files[name].imports[i], leaked, r.own + r.nested, w, r.after);
    }

    /** One round of LdkpBuildImportDescriptors: the module of the import, then its thunks. */
    method ResolveAndBind(ghost v: View, name: string, i: nat, list: seq<Ptr>, ghost walk: seq<Resolution>,
                          ghost leaked: multiset<Ptr>)
      returns (status: Status, list': seq<Ptr>, ghost walk': seq<Resolution>, ghost leaked': multiset<Ptr>)
      requires Valid() && name in files && i < |files[name].imports| && Walking(v, V(), name, i, list, walk, leaked)
      modifies this
      ensures Valid() && Loading(v, V())
      ensures status == Success || status == Failed || (status == Saturated && AtLimit(S()))
      ensures status != Saturated ==> Carrying(v, V(), list', leaked') && LeaksOf(name, leaked', pool)
      ensures status == Success ==> Walking(v, V(), name, i + 1, list', walk', leaked')
      ensures Decided(old(asked), asked, status, old(CanImport(S(), tlsBits, files[name].imports[i])))
      ensures |tlsBits| <= |old(tlsBits)| + TlsNeeds(files[name].imports[i])
      decreases rank(name), 0, 0
    {
      hide WellFounded, Lawful, Inv, Grown, Names, Loading, Quiet, Exchanged, Walking, Provides, Suffixed, SuffixFree;
      hide Carrying, Met, LeaksOf, LeaksOfImport, Walked, Resolves, Origin, Aliased, FindEither, LeakedBy, Refs, Snoc;
      hide Decided, Served, CanImport, TlsNeeds, AtLimit;
      ghost var w, able := V(), CanImport(S(), tlsBits, files[name].imports[i]);
      ImportsRankLower(name, files[name].imports[i]);
      WalkingFacts(v, w, name, i, list, walk, leaked);
      ghost var looked, own, nested;
      var target;
      status, target, list', looked, own, nested := ResolveImportModule(name, files[name].imports[i], list);
      ghost var resolved, middle := status, asked;
      ghost var r := Resolution(w, list, looked, target, own, nested, V(), list');
      walk', leaked' := walk + [r], leaked + (own + nested);
      LoadingTransitive(v, w, V());
      LawfulFacts(V());
      if status == Success {
        ResolvedTo(files[name].imports[i], r);
        WalkGoesOn(v, w, name, i, list, walk, leaked, r);
        var snapped := Ask(Thunks);
        status := if snapped then Success else Failed;
      } else if status != Saturated {
        status := Failed;
      }
      if resolved != Saturated {
        WalkingLeaks(v, w, name, i, list, walk, leaked);
        WalkLeaks(v, w, name, i, list, leaked, r);
      }
      DecidedUnasked(old(asked), Success, able);
      DecidedByRound(old(asked), old(asked), middle, asked, resolved, status == Success, able, able);
    }

    lemma WalkingLeaks(v: View, w: View, name: string, i: nat, list: seq<Ptr>, walk: seq<Resolution>,
                       leaked: multiset<Ptr>)
      requires WellFounded() && name in files && i <= |files[name].imports|
      requires Walking(v, w, name, i, list, walk, leaked)
      ensures Carrying(v, w, list, leaked) && LeaksOf(name, leaked, w.s.pool)
    {
    }

    lemma NoneWalked(v: View, imports: seq<string>)
      requires WellFounded()
      ensures Walked(v, imports[..0], []) && LeakedBy([]) == multiset{}
    {
    }

    lemma ResolvedTo(name: string, r: Resolution)
      requires WellFounded() && Loading(r.before, r.after) && Allocated(r.before.s.active, r.before.s.pool)
      requires r.target in r.after.s.active && r.target in r.after.s.pool
      requires Provides(r.after.s.active, r.after.s.pool, files, name, r.target)
      requires r.list' == if r.after.s.pool[r.target].builtin || r.target in r.list
                          then r.list else Snoc(r.list, r.target)
      requires Exchanged(r.before.s.held, r.list, r.after.s.held, r.list', r.own + r.nested)
      requires r.own == if r.looked && Aliased(r.before.s.active, r.before.s.pool, name, r.list)
                        then multiset{r.target} else multiset{}
      requires Origin(r.before.s, r.after.s.active, r.after.s.pool, files, name, r.looked, r.target, r.nested)
      requires LeaksOfImport(name, r.own + r.nested, r.after.s.pool)
      ensures Resolves(name, r)
    {
    }

    /** The second part of LdkLoadDll: a file is loaded, registered and attached, or nothing is. */
    method LoadFile(name: string, resolve: bool, resourceOnly: bool)
      returns (status: Status, handle: Ptr, ghost walk: seq<Resolution>, ghost leaked: multiset<Ptr>)
      requires Valid() && name in files
      modifies this
      ensures Valid() && Loading(old(V()), V())
      ensures status == Saturated ==> AtLimit(S())
      ensures Decided(old(asked), asked, status, resolve ==> old(CanLoad(S(), tlsBits, name)))
      ensures |tlsBits| <= |old(tlsBits)| + if resolve then TlsNeeds(name) else 0
      ensures status == Success && resolve ==> asked != [] && asked[|asked| - 1] == DllMain
      ensures status == Success ==> held == old(held) + leaked + multiset{handle}
      ensures status != Success && status != Saturated ==> held == old(held) + leaked
      ensures status != Saturated ==> LeaksOf(name, leaked, pool)
      ensures status == Success ==>
                && handle !in old(pool) && handle in pool && handle in active
                && pool[handle].name == files[name].moduleName && pool[handle].Counted()
                && pool[handle].path == files[name].path
                && pool[handle].attached == resolve && pool[handle].resourceOnly == resourceOnly
                && pool[handle].tls.Some? == (resolve && files[name].hasTls)
                && (if resolve then Met(active, pool, files, files[name].imports, pool[handle].deps)
                    else pool[handle].deps == [])
      ensures status == Success && resolve ==> Walked(old(V()), files[name].imports, walk) && leaked == LeakedBy(walk)
      decreases rank(name), 0, 3
    {
      hide WellFounded, Lawful, Inv, Grown, Names, Edges, Loading, Quiet, Collected, SameHistory, Called, Carrying;
      hide Met, Suffixed, Walked, LeaksOf, NamesKept, AtLimit, Provides, LeakedBy;
      hide Decided, Served, CanLoad, CanWalk, TlsNeeds, NeedsUpTo;
      ghost var v := V();
      var list;
      CanLoadFacts(v.s, v.bits, name);
      ghost var some, enough := resolve ==> CanWalk(v.s, v.bits, name), resolve ==> CanLoad(v.s, v.bits, name);
      status, list, walk, leaked := LoadImage(name, resolve);
      handle := 0;
      DecidedLess(old(asked), asked, status, some, enough);
      if status == Saturated {
        return;
      }
      ghost var first, before, bits := status, asked, tlsBits;
      ghost var room := resolve && files[name].hasTls ==> |bits| < tlsSlots;
      ghost var loaded := pool;
      if status == Success {
        status, handle := KeepImage(v, name, list, leaked, resolve, resourceOnly);
      } else {
        status := Failed;
        DropImage(v, list, leaked);
        FewerBits(bits, tlsBits);
      }
      DecidedThen(old(asked), before, asked, first, status, enough, room, enough);
      HeldLeaksStay(name, v.s.held, leaked, handle, loaded);
    }

    /** What a load leaked is still there when the load is over. */
    lemma HeldLeaksStay(name: string, base: multiset<Ptr>, leaked: multiset<Ptr>, handle: Ptr, loaded: Pool)
      requires WellFounded() && Lawful(V()) && LeaksOf(name, leaked, loaded) && NamesKept(loaded, pool)
      requires held == base + leaked || held == base + leaked + multiset{handle}
      ensures LeaksOf(name, leaked, pool)
    {
      hide WellFounded, Lawful, Suffixed, LeaksOf, NamesKept;
      LawfulFacts(V());
      assert leaked <= held;
      forall p | p in leaked
        ensures p in pool
      {
        assert p in held;
      }
      LeaksStay(name, leaked, loaded, pool);
    }

    /** The image could not be completed: the references its imports took go back. */
    method DropImage(ghost v: View, list: seq<Ptr>, ghost leaked: multiset<Ptr>)
      requires Lawful(v) && Quiet(v.s) && Carrying(v, V(), list, leaked) && WellFounded()
      modifies this
      ensures Valid() && Loading(v, V()) && NamesKept(old(pool), pool)
      ensures asked == old(asked) && tlsBits <= old(tlsBits)
      ensures held == v.s.held + leaked
    {
      hide WellFounded, Lawful, Inv, Grown, Names, Loading, Quiet, Collected, SameHistory, Called;
      ghost var w := V();
      LoadingFacts(v, w);
      ReleaseModuleDependencies(list);
      ReleasedAgain(v, w, V());
    }

    /** What LdkLoadDll does with a complete image. */
    method KeepImage(ghost v: View, name: string, list: seq<Ptr>, ghost leaked: multiset<Ptr>,
                     resolve: bool, resourceOnly: bool)
      returns (status: Status, handle: Ptr)
      requires Lawful(v) && Quiet(v.s) && Carrying(v, V(), list, leaked)
      requires WellFounded() && name in files
      requires resolve ==> Met(active, pool, files, files[name].imports, list)
      modifies this
      ensures Valid() && Loading(v, V()) && NamesKept(old(pool), pool)
      ensures status == Success || status == Failed || status == DllInitFailed
      ensures Decided(old(asked), asked, status, resolve && files[name].hasTls ==> |old(tlsBits)| < tlsSlots)
      ensures |tlsBits| <= |old(tlsBits)| + if resolve && files[name].hasTls then 1 else 0
      ensures status == Success && resolve ==> asked != [] && asked[|asked| - 1] == DllMain
      ensures status == Success ==> held == v.s.held + leaked + multiset{handle}
      ensures status != Success ==> held == v.s.held + leaked
      ensures status == Success ==>
                && handle !in v.s.pool && handle in pool && handle in active
                && pool[handle].name == files[name].moduleName && pool[handle].Counted()
                && pool[handle].path == files[name].path
                && pool[handle].attached == resolve && pool[handle].resourceOnly == resourceOnly
                && pool[handle].tls.Some? == (resolve && files[name].hasTls) && pool[handle].deps == list
                && (resolve ==> Met(active, pool, files, files[name].imports, list))
    {
      hide WellFounded, Lawful, Inv, Grown, Names, Loading, Quiet, Collected, SameHistory, Called, Carrying;
      hide Exchanged, Refs, LoadHistory, RecordsOk, Met, Decided, Served, NamesKept, Provides;
      ghost var w := V();
      ghost var room := resolve && files[name].hasTls ==> |tlsBits| < tlsSlots;
      DecidedByAnswer(asked, Record, if granted(|asked|) then Success else Failed, true);
      var ok;
      ok, handle := RegisterWithDependencies(v, name, list, leaked);
      ghost var before, bits := asked, tlsBits;
      if ok {
        status := FinishImage(v, w, handle, name, list, leaked, resolve, resourceOnly);
      } else {
        DropImage(v, list, leaked);
        FewerBits(bits, tlsBits);
        status := Failed;
      }
      DecidedThen(old(asked), before, asked, if ok then Success else Failed, status, true, room, room);
    }

    /** The end of LdkLoadDll for an image whose module `p` is registered with its dependencies; `w` is the
        state before. */
    method FinishImage(ghost v: View, ghost w: View, p: Ptr, name: string, ghost list: seq<Ptr>,
                       ghost leaked: multiset<Ptr>, resolve: bool, resourceOnly: bool) returns (status: Status)
      requires Lawful(v) && Quiet(v.s) && Loading(v, V()) && WellFounded() && name in files
      requires p !in v.s.pool && p !in w.s.pool && active == w.s.active + [p]
      requires pool == w.s.pool[p := FreshModule(files[name].moduleName, files[name].path).(deps := list)]
      requires p + 1 == nextRecord && p !in Called(log, ProcessAttach)
      requires held == v.s.held + leaked + multiset{p}
      requires resolve ==> Met(w.s.active, w.s.pool, files, files[name].imports, list)
      modifies this
      ensures Valid() && Loading(v, V()) && NamesKept(w.s.pool, pool)
      ensures status == Success || status == Failed || status == DllInitFailed
      ensures Decided(old(asked), asked, status, resolve && files[name].hasTls ==> |old(tlsBits)| < tlsSlots)
      ensures |tlsBits| <= |old(tlsBits)| + if resolve && files[name].hasTls then 1 else 0
      ensures status == Success && resolve ==> asked != [] && asked[|asked| - 1] == DllMain
      ensures held == if status == Success then v.s.held + leaked + multiset{p} else v.s.held + leaked
      ensures status == Success ==>
                && p in pool && p in active
                && pool[p].name == files[name].moduleName && pool[p].Counted() && pool[p].path == files[name].path
                && pool[p].attached == resolve && pool[p].resourceOnly == resourceOnly
                && pool[p].tls.Some? == (resolve && files[name].hasTls) && pool[p].deps == list
                && (resolve ==> Met(active, pool, files, files[name].imports, list))
    {
      hide WellFounded, Lawful, Inv, Grown, Names, Loading, Quiet, Collected, SameHistory, Called;
      hide Refs, LoadHistory, RecordsOk, Met, Decided, Served, NamesKept, Provides;
      ghost var m := FreshModule(files[name].moduleName, files[name].path).(deps := list);
      GivenUp(v.s.held, leaked, p);
      status := FinishLoad(v, p, files[name], resolve, resourceOnly);
      LoadingFacts(v, V());
      NamesKeptBeside(w.s.pool, p, m, pool);
      if status == Success && resolve {
        UpdateTwice(w.s.pool, p, m, pool[p]);
        MetBesideNewRecord(w.s.active, w.s.pool, files, files[name].imports, list, p, pool[p]);
      }
    }

    static lemma GivenUp(held: multiset<Ptr>, leaked: multiset<Ptr>, p: Ptr)
      ensures held + leaked + multiset{p} - multiset{p} == held + leaked && held <= held + leaked
      ensures p in held + leaked + multiset{p}
    {
    }

    static lemma NamesKeptBeside(pool: Pool, p: Ptr, m: Module, pool': Pool)
      requires p !in pool && NamesKept(pool[p := m], pool')
      ensures NamesKept(pool, pool')
    {
    }

    /** LdkRegisterModule and the move of the list to the new module. */
    method RegisterWithDependencies(ghost v: View, name: string, list: seq<Ptr>, ghost leaked: multiset<Ptr>)
      returns (ok: bool, handle: Ptr)
      requires Lawful(v) && Quiet(v.s) && Carrying(v, V(), list, leaked)
      requires WellFounded() && name in files
      modifies this
      ensures asked == old(asked) + [Record] && ok == granted(old(|asked|)) && tlsBits == old(tlsBits)
      ensures !ok ==> V() == old(V())
      ensures ok ==>
                && handle !in v.s.pool && handle !in old(pool)
                && active == old(active) + [handle]
                && pool == old(pool)[handle := FreshModule(files[name].moduleName, files[name].path).(deps := list)]
                && handle + 1 == nextRecord && handle !in Called(log, ProcessAttach)
                && held == v.s.held + leaked + multiset{handle}
                && Loading(v, V())
    {
      hide WellFounded, Lawful, Inv, Grown, Names, Loading, Quiet, Collected, SameHistory, Called, Carrying;
      hide Exchanged, Refs, LoadHistory, RecordsOk;
      ghost var w := V();
      CarryingFacts(v, w, list, leaked);
      LoadingFacts(v, w);
      FileNameIsKnown(name);
      ok, handle := RegisterModule(files[name].moduleName, files[name].path);
      if ok {
        RegisteredInLoad(v, w, files[name].moduleName, files[name].path, list);
        MoveModuleDependencies(v, handle, list);
        HeldAfterMove(v.s.held, list, leaked, handle);
      }
    }

    lemma FileNameIsKnown(name: string)
      requires name in files
      ensures files[name].moduleName in Names()
    {
    }

    lemma DecidedGrows(a: seq<Question>, b: seq<Question>, status: Status, enough: bool)
      requires Decided(a + [ToAnsi], b, status, enough)
      ensures a + [ToAnsi] <= b
    {
    }

    static lemma NothingLeaked(held: multiset<Ptr>, p: Ptr)
      ensures held + multiset{} == held && held + multiset{} + multiset{p} == held + multiset{p}
    {
    }

    /** What LdkLoadDll does with a name that is not registered. */
    method LoadFromPath(name: string, resolve: bool, resourceOnly: bool)
      returns (status: Status, handle: Ptr, ghost walk: seq<Resolution>, ghost leaked: multiset<Ptr>)
      requires Valid()
      modifies this
      ensures Valid() && Loading(old(V()), V())
      ensures status == Saturated ==> AtLimit(S())
      ensures Decided(old(asked), asked, status, if resolve then old(CanLoad(S(), tlsBits, name)) else name in files)
      ensures |tlsBits| <= |old(tlsBits)| + if resolve then TlsNeeds(name) else 0
      ensures name !in files ==> status == BufferTooSmall
      ensures status == Success ==> held == old(held) + leaked + multiset{handle}
      ensures status != Success && status != Saturated ==> held == old(held) + leaked
      ensures status != Saturated ==> LeaksOf(name, leaked, pool)
      ensures status == Success ==>
                && handle !in old(pool) && handle in pool && handle in active && name in files
                && pool[handle].name == files[name].moduleName && pool[handle].Counted()
                && pool[handle].path == files[name].path
                && pool[handle].attached == resolve && pool[handle].resourceOnly == resourceOnly
                && pool[handle].tls.Some? == (resolve && files[name].hasTls)
                && (if resolve then Met(active, pool, files, files[name].imports, pool[handle].deps)
                    else pool[handle].deps == [])
      ensures status == Success && resolve ==> Walked(old(V()), files[name].imports, walk) && leaked == LeakedBy(walk)
      decreases rank(name), 0, 4
    {
      hide WellFounded, Lawful, Inv, Grown, Names, Edges, Loading, Quiet, Lookup, AtLimit;
      hide Met, Suffixed, Walked, Decided, Served, CanLoad, TlsNeeds, LeaksOf, LeakedBy;
      ghost var enough := if resolve then CanLoad(S(), tlsBits, name) else name in files;
      FilesOfLoad(S(), tlsBits, name);
      LoadingReflexive(V());
      NoLeaks(name, pool);
      handle, walk, leaked := 0, [], multiset{};
      ghost var first := if name in files && granted(|asked|) then Success else BufferTooSmall;
      DecidedByAnswer(asked, OnSearchPath, first, name in files);
      var pathFound := Ask(OnSearchPath);
      if name in files && pathFound {
        ghost var before := asked;
        status, handle, walk, leaked := LoadFile(name, resolve, resourceOnly);
        DecidedThen(old(asked), before, asked, Success, status, true, resolve ==> enough, enough);
      } else {
        status := BufferTooSmall;
        DecidedLess(old(asked), asked, status, name in files, enough);
      }
    }

    /** LdkLoadDll */
    method LoadDll(name: string, resolveImports: bool, resourceOnly: bool)
      returns (status: Status, handle: Ptr, ghost looked: bool, ghost walk: seq<Resolution>,
               ghost leaked: multiset<Ptr>)
      requires Valid()
      modifies this
      ensures Valid() && Loading(old(V()), V())
      ensures status == Saturated ==> AtLimit(S())
      ensures old(asked) + [ToAnsi] <= asked && looked == granted(old(|asked|))
      ensures Decided(old(asked), asked, status,
                      if resolveImports && !resourceOnly then old(CanLoad(S(), tlsBits, name)) else name in files)
      ensures |tlsBits| <= |old(tlsBits)| + if resolveImports && !resourceOnly then TlsNeeds(name) else 0
      ensures status == Success ==> handle in active && handle in pool
      ensures status == Success && !pool[handle].builtin ==> held == old(held) + leaked + multiset{handle}
      ensures status == Success && pool[handle].builtin ==> held == old(held) + leaked
      ensures status != Success && status != Saturated ==> held == old(held) + leaked
      ensures status != Saturated ==> LeaksOf(name, leaked, pool)
      ensures looked && FindEither(old(active), old(pool), name, resourceOnly).Some? && status != Saturated ==>
                && status == Success && leaked == multiset{}
                && handle == FindEither(old(active), old(pool), name, resourceOnly).value
                && V() == old(V()).(s := AfterReference(old(S()), handle, false, true))
      ensures looked && FindEither(old(active), old(pool), name, resourceOnly).Some? && status == Saturated ==>
                V() == old(V())
      ensures status == Success && !(looked && FindEither(old(active), old(pool), name, resourceOnly).Some?) ==>
                && handle !in old(pool) && name in files
                && pool[handle].name == files[name].moduleName && pool[handle].Counted()
                && pool[handle].path == files[name].path
                && pool[handle].attached == (resolveImports && !resourceOnly)
                && pool[handle].resourceOnly == resourceOnly
                && pool[handle].tls.Some? == (resolveImports && !resourceOnly && files[name].hasTls)
                && (if resolveImports && !resourceOnly
                    then Met(active, pool, files, files[name].imports, pool[handle].deps)
                    else pool[handle].deps == [])
                && (resolveImports && !resourceOnly ==>
                      Walked(old(V()), files[name].imports, walk) && leaked == LeakedBy(walk))
      ensures status == Success && pool[handle].builtin ==> V() == old(V())
      ensures status != Success && status != Saturated && leaked == multiset{} ==>
                S() == old(S()) && tlsBits == old(tlsBits)
      decreases rank(name), 1, 0
    {
      hide WellFounded, Lawful, Inv, Grown, Names, Edges, Loading, Quiet, Lookup;
      hide Met, Suffixed, Walked, Decided, Served, CanLoad, TlsNeeds, LeaksOf, FindEither, AfterReference, LeakedBy,
           AtLimit;
      ghost var v := V();
      var resolve := resolveImports && !resourceOnly;
      LawfulFacts(v);
      NoLeaks(name, pool);
      handle, walk, leaked := 0, [], multiset{};
      var found;
      ghost var enough := if resolve then CanLoad(S(), tlsBits, name) else name in files;
      DecidedByLookup(asked, enough);
      status, looked, found := ReferenceLoaded(name, resourceOnly);
      ghost var before := asked;
      if status == Saturated {
        DecidedSaturated(old(asked), asked, enough);
        return;
      }
      if found.Some? {
        BuiltinReference(v.s, found.value);
        NothingLeaked(v.s.held, found.value);
        NoLeaks(name, pool);
        return Success, found.value, looked, walk, leaked;
      }
      LoadingReflexive(v);
      status, handle, walk, leaked := LoadFromPath(name, resolve, resourceOnly);
      DecidedThen(old(asked), before, asked, Success, status, enough, enough, enough);
      DecidedGrows(old(asked), asked, status, enough);
      if status != Success && status != Saturated && leaked == multiset{} {
        NoReferenceNoTrace(v, V());
      }
    }

    // ---------------------------------------------------------------- whole calls

    /** A load and the matching unload leave no trace, unless the load leaked a reference, which takes an
        import registered under its suffixed name.  What is left is exactly what the imports leaked. */
    method LoadThenUnload(name: string, resolveImports: bool, resourceOnly: bool)
      returns (status: Status, ghost walk: seq<Resolution>, ghost leaked: multiset<Ptr>)
      requires Valid()
      modifies this
      ensures Valid()
      ensures status == Saturated ==> AtLimit(S())
      ensures status != Saturated ==> LeaksOf(name, leaked, pool) && held == old(held) + leaked
      ensures status == Success && resolveImports && !resourceOnly
              && FindEither(old(active), old(pool), name, resourceOnly).None? ==>
                name in files && Walked(old(V()), files[name].imports, walk) && leaked == LeakedBy(walk)
      ensures status != Saturated && leaked == multiset{} ==> S() == old(S()) && tlsBits == old(tlsBits)
      ensures status != Saturated && ExactNames(name) ==> leaked == multiset{}
    {
      hide WellFounded, ExactNames, Lawful, Inv, Grown, Names, Loading, Quiet, Lookup, Suffixed;
      hide SameHistory, Collected, Met, FindEither, LeaksOf, AtLimit, NamesKept, Walked;
      ghost var v := V();
      LawfulFacts(v);
      var handle;
      ghost var looked;
      status, handle, looked, walk, leaked := LoadDll(name, resolveImports, resourceOnly);
      if status == Saturated {
        return;
      }
      ghost var loaded := pool;
      if status == Success {
        UnloadAgain(v, handle, leaked);
        HeldLeaksStay(name, v.s.held, leaked, handle, loaded);
      }
      assert leaked <= held;
      if ExactNames(name) {
        ExactNamesLeakNothing(name, leaked);
      }
    }

    /** The unload that undoes a load. */
    method UnloadAgain(ghost v: View, handle: Ptr, ghost leaked: multiset<Ptr>)
      requires Lawful(v) && Quiet(v.s) && Valid() && Loading(v, V()) && handle in active && handle in pool
      requires held == v.s.held + leaked + if pool[handle].builtin then multiset{} else multiset{handle}
      modifies this
      ensures Valid() && held == v.s.held + leaked && NamesKept(old(pool), pool) && asked == old(asked)
      ensures leaked == multiset{} ==> S() == v.s && tlsBits == v.bits
    {
      hide WellFounded, Lawful, Inv, Grown, Names, Loading, Quiet, SameHistory, Collected;
      ghost var w := V();
      LoadingFacts(v, w);
      LawfulFacts(w);
      var _ := UnloadDll(handle);
      assert held == v.s.held + leaked;
      LoadingThenRelease(v, w, V());
      LoadingFacts(v, V());
      if leaked == multiset{} {
        NoReferenceNoTrace(v, V());
      }
    }

    /** LdkAddRefDll */
    method AddRefDll(handle: Ptr, pin: bool) returns (status: Status)
      requires Valid()
      modifies this
      ensures Valid() && NamesKept(old(pool), pool)
      ensures handle !in old(active) ==> status == NotFound && V() == old(V())
      ensures handle in old(active) ==> status == Success || status == Saturated
      ensures status == Success ==> V() == old(V()).(s := AfterReference(old(S()), handle, pin, true))
      ensures status == Saturated ==> V() == old(V()) && AtLimit(S()) && !pin
      ensures asked == old(asked) && PinsKept(old(S()), S())
      ensures pin && old(Loadable(S(), handle)) ==> status == Success && Pinned(S(), handle)
    {
      hide Lawful, Inv, Names, SameHistory;
      LawfulFacts(V());
      if handle !in active {
        return NotFound;
      }
      ReferenceKeepsPins(S(), handle, pin, true);
      status := TryReference(handle, pin, true);
    }

    /** A pinned module outlives every unload. */
    method PinThenUnload(handle: Ptr, times: nat)
      requires Valid() && Loadable(S(), handle) && times <= held[handle] + 1
      modifies this
      ensures Valid() && Pinned(S(), handle)
    {
      hide Lawful, Inv, Quiet, Names, WellFounded, Collected, SameHistory, PinsKept, AfterReference;
      LawfulFacts(V());
      ghost var before := S();
      var status := AddRefDll(handle, true);
      ReferenceKeepsRecord(before, handle, true, true);
      for i := 0 to times
        invariant Valid() && Pinned(S(), handle) && held[handle] >= times - i
      {
        ghost var w := V();
        LawfulFacts(w);
        var _ := UnloadDll(handle);
        CollectedQuiet(w.s, S());
        PinStays(w.s, S(), handle, false);
      }
    }

    /** A name under which a module is registered, loaded once its conversion is granted: it gives that module,
        with one reference more, and no record; it can only be stopped by a count at its limit. */
    method LoadRegistered(name: string, resolveImports: bool, resourceOnly: bool) returns (status: Status, handle: Ptr)
      requires Valid() && Allocated(active, pool) && granted(|asked|)
      requires FindEither(active, pool, name, resourceOnly).Some?
      modifies this
      ensures Valid()
      ensures !old(AtLimit(S())) ==> status == Success
      ensures status == Success || (status == Saturated && V() == old(V()))
      ensures status == Success ==>
                && Some(handle) == old(FindEither(active, pool, name, resourceOnly))
                && active == old(active) && pool.Keys == old(pool.Keys) && handle in pool && handle in old(pool)
                && (old(pool)[handle].Counted() ==> pool[handle].loadCount == old(pool)[handle].loadCount + 1)
                && (forall q :: q in pool && q != handle ==> pool[q] == old(pool)[q])
                && nextRecord == old(nextRecord) && log == old(log) && tlsBits == old(tlsBits)
    {
      hide Lawful, Inv, Quiet, Names, WellFounded, Loading, AtLimit, Met, LeaksOf, LeakedBy, AfterReference;
      hide Decided, Served, CanLoad, TlsNeeds, Walked, FindEither;
      ghost var v := V();
      LawfulFacts(v);
      ghost var looked, walk, leaked;
      status, handle, looked, walk, leaked := LoadDll(name, resolveImports, resourceOnly);
      if status == Success {
        LawfulFacts(V());
        OneReferenceMore(v, V(), handle);
      }
    }

    static lemma OneReferenceMore(v: View, w: View, p: Ptr)
      requires Lawful(v) && Lawful(w) && p in v.s.active && p in v.s.pool
      requires w == v.(s := AfterReference(v.s, p, false, true))
      ensures w.s.active == v.s.active && w.s.pool.Keys == v.s.pool.Keys
      ensures v.s.pool[p].Counted() ==> w.s.pool[p].loadCount == v.s.pool[p].loadCount + 1
      ensures forall q :: q in w.s.pool && q != p ==> w.s.pool[q] == v.s.pool[q]
    {
      hide Inv;
      ReferenceIsExactUnlessSaturated(v.s, p, false, true);
    }

    /** With every request granted, and files, imports and TLS indices there, a load succeeds unless a count is
        at its limit.  Loaded again, the name gives a module registered under it, the same one if there is no
        other. */
    method LoadTwice(name: string)
      returns (first: Status, handle: Ptr, second: Status, handle': Ptr, ghost between: State)
      requires Valid() && (forall n: nat :: granted(n)) && CanLoad(S(), tlsBits, name)
      requires SameName(files[name].moduleName, name)
      modifies this
      ensures Valid()
      ensures first == Success || (first == Saturated && AtLimit(S()))
      ensures first == Success ==> second == Success || (second == Saturated && AtLimit(between))
      ensures first == Success == second ==>
                && S().active == between.active && S().pool.Keys == between.pool.Keys
                && handle' in between.active && (OnlyOne(between, handle, name) ==> handle' == handle)
    {
      hide Lawful, Inv, Quiet, Names, WellFounded, Loading, AtLimit, Met, LeaksOf, LeakedBy;
      hide Decided, Served, CanLoad, TlsNeeds, Walked, FindEither, AfterReference, OnlyOne;
      ghost var v, enough := V(), CanLoad(S(), tlsBits, name);
      LawfulFacts(v);
      ghost var looked, walk, leaked;
      second, handle' := Failed, 0;
      FilesOfLoad(S(), tlsBits, name);
      first, handle, looked, walk, leaked := LoadDll(name, true, false);
      between := S();
      LawfulFacts(V());
      AllServed(asked, |old(asked)|);
      GrantedAndEnough(old(asked), asked, first, enough);
      if first == Success {
        IsFoundAgain(v, V(), name, handle);
        FoundModule(between, name, handle);
        second, handle' := LoadRegistered(name, true, false);
      }
    }

    /** The only module that a load of the name could find. */
    static ghost predicate OnlyOne(s: State, p: Ptr, name: string) {
      forall q :: q in s.active && q in s.pool && Answers(s.pool[q], name) ==> q == p
    }

    static ghost predicate Answers(m: Module, name: string) {
      !m.resourceOnly && (SameName(m.name, name) || SameName(m.name, name + ".dll"))
    }

    lemma AllServed(asked: seq<Question>, since: nat)
      requires forall n: nat :: granted(n)
      ensures Served(asked, since)
    {
    }

    lemma GrantedAndEnough(before: seq<Question>, asked: seq<Question>, status: Status, enough: bool)
      requires Decided(before, asked, status, enough) && Served(asked, |before|) && enough
      ensures status == Success || status == Saturated
    {
    }

    /** What has been loaded under a name is found under it. */
    lemma IsFoundAgain(v: View, w: View, name: string, p: Ptr)
      requires Allocated(v.s.active, v.s.pool) && Allocated(w.s.active, w.s.pool) && p in w.s.active && p in w.s.pool
      requires name in files && SameName(files[name].moduleName, name)
      requires if FindEither(v.s.active, v.s.pool, name, false).Some?
               then p == FindEither(v.s.active, v.s.pool, name, false).value && p in v.s.pool
                    && w == v.(s := AfterReference(v.s, p, false, true))
               else w.s.pool[p].name == files[name].moduleName && !w.s.pool[p].resourceOnly
      ensures FindEither(w.s.active, w.s.pool, name, false).Some?
    {
      hide AfterReference;
      if FindEither(v.s.active, v.s.pool, name, false).Some? {
        StillAnswers(v.s, p);
      }
    }

    static lemma StillAnswers(s: State, p: Ptr)
      requires p in s.active && p in s.pool
      ensures var s' := AfterReference(s, p, false, true);
              s'.active == s.active && p in s'.pool && s'.pool[p].name == s.pool[p].name
              && s'.pool[p].resourceOnly == s.pool[p].resourceOnly
    {
    }

    static lemma FoundModule(s: State, name: string, p: Ptr)
      requires Allocated(s.active, s.pool) && FindEither(s.active, s.pool, name, false).Some?
      ensures OnlyOne(s, p, name) ==> FindEither(s.active, s.pool, name, false) == Some(p)
    {
      var q := FindEither(s.active, s.pool, name, false).value;
      assert Answers(s.pool[q], name);
    }

    /** LdkpReferenceModuleByNtPath, the lookup. */
    method GetModuleByNtPath(path: string) returns (r: Option<Ptr>)
      requires Allocated(active, pool)
      ensures r == LookupPath(active, pool, path)
    {
      var i := 0;
      while i < |active|
        invariant 0 <= i <= |active|
        invariant LookupPath(active, pool, path) == LookupPath(active[i..], pool, path)
      {
        var m := pool[active[i]];
        if !m.resourceOnly && SameName(m.path, path) {
          return Some(active[i]);
        }
        assert active[i..][1..] == active[i + 1..];
        i := i + 1;
      }
      r := None;
    }

    /** The module LdkGetDllHandleEx looks for: by the NT path a given search path led to, else by name. */
    static ghost function Sought(active: seq<Ptr>, pool: Pool, name: string, path: Option<string>): (r: Option<Ptr>)
      requires Allocated(active, pool)
      ensures r.Some? ==> r.value in active
    {
      if path.Some? then LookupPath(active, pool, path.value) else Lookup(active, pool, name, false)
    }

    /** LdkGetDllHandleEx */
    method GetDllHandle(name: string, path: Option<string>, pin: bool, increment: bool)
      returns (status: Status, handle: Ptr)
      requires Valid()
      modifies this
      ensures Valid() && NamesKept(old(pool), pool)
      ensures (status == InvalidParameter <==> pin && !increment) && (status != Success ==> V() == old(V()))
      ensures status == Failed <==> !(pin && !increment) && !granted(old(|asked|))
      ensures asked == if pin && !increment then old(asked) else old(asked) + [HandleName]
      ensures status == Success ==>
                && handle in old(active) && handle in old(pool) && !old(pool)[handle].resourceOnly
                && (path.Some? ==> SameName(old(pool)[handle].path, path.value))
                && (path.None? ==> SameName(old(pool)[handle].name, name))
      ensures status == NotFound ==> Sought(old(active), old(pool), name, path).None?
      ensures status == Success ==>
                && Sought(old(active), old(pool), name, path) == Some(handle)
                && V() == old(V()).(s := AfterReference(old(S()), handle, pin, increment))
      ensures status == Saturated ==> AtLimit(S()) && increment && !pin
      ensures PinsKept(old(S()), S())
      ensures status == Success && pin && old(Loadable(S(), handle)) ==> Pinned(S(), handle)
      ensures status == Success || status == InvalidParameter || status == NotFound || status == Failed
              || status == Saturated
    {
      hide Lawful, Inv, Names, SameHistory;
      LawfulFacts(V());
      handle := 0;
      if pin && !increment {
        return InvalidParameter, 0;
      }
      var converted := Ask(HandleName);
      if !converted {
        return Failed, 0;
      }
      var found;
      if path.Some? {
        found := GetModuleByNtPath(path.value);
      } else {
        found := GetModuleByName(name, false);
      }
      if found.None? {
        return NotFound, 0;
      }
      handle := found.value;
      ReferenceKeepsPins(S(), handle, pin, increment);
      status := TryReference(handle, pin, increment);
    }

    /** LdkReferenceModuleByAddress, the lookup. */
    method GetModuleByAddress(address: nat) returns (r: Option<Ptr>)
      requires Allocated(active, pool)
      ensures r == LookupAddress(active, pool, span, address)
    {
      var i := 0;
      while i < |active|
        invariant 0 <= i <= |active|
        invariant LookupAddress(active, pool, span, address) == LookupAddress(active[i..], pool, span, address)
      {
        var p := active[i];
        if !pool[p].builtin && !pool[p].resourceOnly && span(p).Covers(address) {
          return Some(p);
        }
        assert active[i..][1..] == active[i + 1..];
        i := i + 1;
      }
      r := None;
    }

    /** LdkReferenceModuleByAddress */
    method ReferenceModuleByAddress(address: nat, pin: bool, increment: bool) returns (status: Status, handle: Ptr)
      requires Valid()
      modifies this
      ensures Valid() && NamesKept(old(pool), pool)
      ensures Allocated(old(active), old(pool))
      ensures status == NotFound <==> LookupAddress(old(active), old(pool), span, address).None?
      ensures status == Success ==>
                && LookupAddress(old(active), old(pool), span, address) == Some(handle)
                && V() == old(V()).(s := AfterReference(old(S()), handle, pin, increment))
      ensures status == Saturated ==> AtLimit(S()) && increment && !pin
      ensures PinsKept(old(S()), S())
      ensures status == Success && pin ==> Pinned(S(), handle)
      ensures status != Success ==> V() == old(V())
      ensures status == Success || status == NotFound || status == Saturated
    {
      hide Lawful, Inv, Names, SameHistory;
      LawfulFacts(V());
      var found := GetModuleByAddress(address);
      if found.None? {
        return NotFound, 0;
      }
      handle := found.value;
      ReferenceKeepsPins(S(), handle, pin, increment);
      status := TryReference(handle, pin, increment);
    }

    // ---------------------------------------------------------------- shutdown

    /** The loop of LdkTerminate: unregister from the tail, pins and counts regardless. */
    method Terminate()
      requires Lawful(V())
      requires forall p :: p in pool && p !in active ==> pool[p].builtin
      modifies this
      ensures active == [] && tlsBits == clientTls && (forall p :: p in pool ==> pool[p].builtin)
      ensures LogLaw(log, {}, nextRecord) && old(log) <= log
      ensures Called(log, ProcessDetach) == Called(log, ProcessAttach) == old(Called(log, ProcessAttach))
      ensures forall p, d :: p in old(active) && old(pool[p].attached) && d in old(pool)[p].deps ==>
                DetachedFirst(log, p, d)
    {
      hide Inv, Unlinked, Collected, Edges, Keep, Names, LogLaw, Called;
      SameHistoryReflexive(V());
      ghost var v := V();
      LawfulFacts(v);
      while active != []
        invariant Lawful(V()) && SameHistory(old(V()), V())
        invariant OnlyBuiltinsOffList(S())
        decreases |active|
      {
        UnregisterTail();
      }
      NothingLive(V());
      DependenciesGoLast(v, log, nextRecord);
    }

    /** The attachments on record when shutdown begins are undone in the opposite order. */
    lemma DependenciesGoLast(v: View, log: seq<Event>, next: Ptr)
      requires Recorded(v.log, v.s.active, v.s.pool) && v.log <= log && LogLaw(log, {}, next)
      ensures forall p, d :: p in v.s.active && p in v.s.pool && v.s.pool[p].attached && d in v.s.pool[p].deps ==>
                DetachedFirst(log, p, d)
    {
      hide LogLaw, DetachedFirst;
      forall p | p in v.s.active && p in v.s.pool && v.s.pool[p].attached
        ensures forall d :: d in v.s.pool[p].deps ==> DetachedFirst(log, p, d)
      {
        var k :| 0 <= k < |v.log| && v.log[k] == Event(ProcessAttach, p, v.s.pool[p].deps);
        assert log[k] == v.log[k];
        DependantsGoFirst(log, {}, next, p, v.s.pool[p].deps);
      }
    }

    /** One round of that loop. */
    method UnregisterTail()
      requires Lawful(V()) && OnlyBuiltinsOffList(S()) && active != []
      modifies this
      ensures Lawful(V()) && SameHistory(old(V()), V()) && OnlyBuiltinsOffList(S())
      ensures |active| < |old(active)|
    {
      hide Inv, Lawful, Unlinked, SameHistory, Collected, Edges, Keep, Names, OnlyBuiltinsOffList;
      ghost var v := V();
      LawfulFacts(v);
      TailIsUnnamed(v.s);
      var i := |active| - 1;
      var p := active[i];
      var m := pool[p];
      active := active[..i];
      log := log + [Event(Unlisting, p, [])];
      held := held[p := 0] + multiset(m.deps);
      assert pool[p := m] == pool && active == Without(v.s.active, i);
      UnlinkIsLawful(v, i, m);
      ghost var u := V();
      assert u == Unlink(v, i, m);
      UnregisterModule(p);
      SameHistoryAfterUnlink(v, i, m, V());
      OffListAfterTail(v, i, S());
    }

    // ---------------------------------------------------------------- thread notifications

    /** LdkpReferenceProcessAttachedModuleSnapshot with no flag excluded. */
    method ReferenceSnapshot() returns (status: Status, snapshot: seq<Ptr>)
      requires Valid()
      modifies `pool, `held, `asked
      ensures Valid() && Loading(old(V()), V()) && SameHistory(old(V()), V())
      ensures held == old(held) + Refs(snapshot)
      ensures Allocated(old(active), old(pool))
      ensures status == Success || status == Failed || status == Saturated
      ensures status == Success ==> snapshot == AttachedInOrder(old(active), old(pool))
      ensures status == Failed <==> AttachedInOrder(old(active), old(pool)) != [] && !granted(old(|asked|))
      ensures status == Failed ==> snapshot == [] && AttachedInOrder(old(active), old(pool)) != []
      ensures status == Saturated ==> AtLimit(S())
    {
      hide Lawful, Inv, Grown, Names, Loading, Quiet, SameHistory, Snoc, Refs;
      ghost var v := V();
      LawfulFacts(v);
      LoadingReflexive(v);
      RefsSnoc([], 0);
      status, snapshot := Success, [];
      var count := Count();
      if count == 0 {
        return;
      }
      var room := Ask(SnapshotRoom);
      if !room {
        return Failed, [];
      }
      status, snapshot := FillSnapshot(v);
    }

    /** The second pass. */
    method FillSnapshot(ghost v: View) returns (status: Status, snapshot: seq<Ptr>)
      requires Valid() && v == V()
      modifies `pool, `held
      ensures Valid() && Loading(v, V()) && SameHistory(v, V())
      ensures held == v.s.held + Refs(snapshot)
      ensures Allocated(v.s.active, v.s.pool)
      ensures status == Success || status == Saturated
      ensures status == Success ==> snapshot == AttachedInOrder(v.s.active, v.s.pool)
      ensures status == Saturated ==> AtLimit(S())
    {
      hide Lawful, Inv, Grown, Names, Loading, Quiet, SameHistory, Snoc, Refs, AtLimit;
      LawfulFacts(v);
      LoadingReflexive(v);
      RefsSnoc([], 0);
      status, snapshot := Success, [];
      var i := 0;
      while i < |active|
        invariant 0 <= i <= |active| && status == Success && active == v.s.active
        invariant Valid() && Loading(v, V()) && SameHistory(v, V())
        invariant Allocated(active, pool) && Distinct(active)
        invariant AttachedInOrder(active, pool) == AttachedInOrder(active, v.s.pool)
        invariant snapshot == AttachedInOrder(active[..i], pool)
        invariant held == v.s.held + Refs(snapshot)
      {
        status, snapshot := ReferenceIfAttached(v, snapshot, i);
        if status != Success {
          return;
        }
        i := i + 1;
      }
      assert active[..i] == active;
    }

    /** The first pass: how many there will be. */
    method Count() returns (count: nat)
      requires Allocated(active, pool)
      ensures count == |AttachedInOrder(active, pool)|
    {
      hide Snoc;
      count := 0;
      for i := 0 to |active|
        invariant count == |AttachedInOrder(active[..i], pool)|
      {
        CountNext(active, pool, i);
        if pool[active[i]].attached {
          count := count + 1;
        }
      }
      assert active[..|active|] == active;
    }

    /** One round of the loop that fills the snapshot. */
    method ReferenceIfAttached(ghost v: View, snapshot: seq<Ptr>, i: nat)
      returns (status: Status, snapshot': seq<Ptr>)
      requires Valid() && Loading(v, V()) && SameHistory(v, V()) && i < |active|
      requires Allocated(active, pool) && Distinct(active)
      requires snapshot == AttachedInOrder(active[..i], pool) && held == v.s.held + Refs(snapshot)
      modifies `pool, `held
      ensures Valid() && Loading(v, V()) && SameHistory(v, V())
      ensures status == Success || status == Saturated
      ensures Allocated(active, pool)
      ensures AttachedInOrder(active, pool) == AttachedInOrder(active, old(pool))
      ensures status == Success ==> snapshot' == AttachedInOrder(active[..i + 1], pool)
      ensures held == v.s.held + Refs(snapshot')
      ensures status == Saturated ==> AtLimit(S())
    {
      hide Lawful, Inv, Grown, Names, Loading, Quiet, SameHistory, Snoc, Refs;
      ghost var w := V();
      var p := active[i];
      AttachedNext(active, pool, i);
      status, snapshot' := Success, snapshot;
      if pool[p].attached {
        AttachedIsLoadable(w, p);
        AttachedFrameOne(active, S(), p);
        AttachedFrameOne(active[..i + 1], S(), p);
        status := TryReference(p, false, true);
        LoadingTransitive(v, w, V());
        LoadingFacts(w, V());
        SameHistoryTransitive(v, w, V());
        if status == Success {
          RefsSnoc(snapshot, p);
          snapshot' := Snoc(snapshot, p);
        }
        LawfulFacts(V());
      }
    }

    /** LdkpReleaseProcessAttachedModuleSnapshot */
    method ReleaseSnapshot(snapshot: seq<Ptr>)
      requires Lawful(V()) && Refs(snapshot) <= held
      modifies this
      ensures Lawful(V()) && SameHistory(old(V()), V()) && Collected(old(S()), S())
      ensures held == old(held) - Refs(snapshot)
    {
      hide Inv, Lawful, SameHistory, Collected, Names, Split;
      ghost var others := held - Refs(snapshot);
      var done, rest := [], snapshot;
      SplitStart(snapshot, others, held);
      NoStep(V());
      while rest != []
        invariant Lawful(V()) && SameHistory(old(V()), V()) && Collected(old(S()), S())
        invariant Split(done, rest, snapshot, others, held)
        decreases |rest|
      {
        ghost var w := V();
        var p := rest[0];
        SplitHead(done, rest, snapshot, others, held);
        LawfulFacts(w);
        var _ := UnloadDll(p);
        SameHistoryTransitive(old(V()), w, V());
        CollectedTransitive(old(S()), w.s, S());
        done, rest := done + [p], rest[1..];
      }
      SplitEnd(done, snapshot, others, held);
    }

    /** The loop of LdkpCallThreadNotifications over its snapshot. */
    method CallModules(snapshot: seq<Ptr>, reason: ThreadReason, refused: set<Ptr>, blocks: set<nat>)
      returns (calls: seq<ThreadCall>, left: set<nat>)
      requires Lawful(V()) && Refs(snapshot) <= held
      ensures (calls, left) == CallsOf(snapshot, pool, reason, refused, blocks)
    {
      hide Lawful, Refs;
      SnapshotIsAllocated(V(), snapshot);
      calls, left := [], blocks;
      for i := 0 to |snapshot|
        invariant (calls, left) == CallsOf(snapshot[..i], pool, reason, refused, blocks)
      {
        var p := snapshot[i];
        assert snapshot[..i + 1][..i] == snapshot[..i];
        calls, left := CallModule(p, reason, p in refused, calls, left);
      }
      assert snapshot[..|snapshot|] == snapshot;
    }

    /** One round of that loop. */
    method CallModule(p: Ptr, reason: ThreadReason, refused: bool, calls: seq<ThreadCall>, blocks: set<nat>)
      returns (calls': seq<ThreadCall>, left: set<nat>)
      requires p in pool
      ensures (calls', left) == CallOne(p, pool[p], reason, refused, calls, blocks)
    {
      var m := pool[p];
      calls', left := calls, blocks;
      if reason == ThreadAttach && m.tls.Some? && m.tls.value !in left {
        if refused {
          return;
        }
        left := left + {m.tls.value};
      }
      calls' := calls' + [TlsCallbacks(p)];
      if !m.threadCallsOff {
        calls' := calls' + [EntryPoint(p)];
      }
      if reason == ThreadDetach && m.tls.Some? {
        left := left - {m.tls.value};
      }
      assert m.tls.Some? && m.tls.value in blocks ==> blocks + {m.tls.value} == blocks;
      assert calls + [TlsCallbacks(p)] + [] == calls + [TlsCallbacks(p)];
    }

    /** LdkpCallThreadNotifications: the attached modules are called in list order, each while its record
        is certainly there, and the registry ends as it was; or there is no room for a snapshot and nobody
        is called. */
    method CallThreadNotifications(reason: ThreadReason, refused: set<Ptr>, blocks: set<nat>)
      returns (status: Status, calls: seq<ThreadCall>, left: set<nat>)
      requires Valid()
      modifies this
      ensures Valid()
      ensures status == Success || status == Failed || status == Saturated
      ensures status == Saturated ==> AtLimit(S()) && NamesKept(old(pool), pool) && old(held) <= held
      ensures status != Saturated ==> S() == old(S()) && tlsBits == old(tlsBits)
      ensures PinsKept(old(S()), S())
      ensures Called(log, ProcessAttach) == old(Called(log, ProcessAttach))
      ensures status != Saturated ==> Called(log, ProcessDetach) == old(Called(log, ProcessDetach))
      ensures Allocated(old(active), old(pool))
      ensures status == Success ==>
                (calls, left) == CallsOf(AttachedInOrder(old(active), old(pool)), old(pool), reason, refused, blocks)
      ensures status == Success ==>
                CalledInOrder(AttachedInOrder(old(active), old(pool)), old(pool), reason, refused, blocks, calls, left)
      ensures status == Failed <==> AttachedInOrder(old(active), old(pool)) != [] && !granted(old(|asked|))
      ensures status == Failed ==> calls == [] && left == blocks && AttachedInOrder(old(active), old(pool)) != []
    {
      hide Inv, Lawful, SameHistory, Collected, Names, Refs, Loading, Quiet, Called, Grown, CallsOf;
      hide AttachedInOrder, CalledInOrder;
      ghost var v := V();
      LawfulFacts(v);
      AttachedAreCalled(v, reason, refused, blocks);
      var snapshot;
      status, snapshot := ReferenceSnapshot();
      ghost var w := V();
      SameAttachments(v, w);
      calls, left := [], blocks;
      if status == Saturated {
        LoadingFacts(v, w);
        GrownNames(v.s, w.s);
        GrownKeepsPins(v.s, w.s);
        return;
      }
      if status == Failed {
        RefsSnoc([], 0);
        assert held == v.s.held;
        NoReferenceNoTrace(v, w);
        DetachedIsDetermined(v, w);
        return;
      }
      assert Refs(snapshot) <= held;
      calls, left := CallModules(snapshot, reason, refused, blocks);
      CallsAfterReference(v, w, reason, refused, blocks);
      ReleaseSnapshot(snapshot);
      assert held == v.s.held;
      SameHistoryTransitive(v, w, V());
      LoadingThenRelease(v, w, V());
      LoadingFacts(v, V());
      NoReferenceNoTrace(v, V());
      DetachedIsDetermined(v, V());
    }

    static lemma SameAttachments(v: View, w: View)
      requires SameHistory(v, w)
      ensures Called(w.log, ProcessAttach) == Called(v.log, ProcessAttach)
    {
    }

    static lemma CallsAfterReference(v: View, w: View, reason: ThreadReason, refused: set<Ptr>, blocks: set<nat>)
      requires Loading(v, w) && Allocated(v.s.active, v.s.pool)
      ensures var snapshot := AttachedInOrder(v.s.active, v.s.pool);
              CallsOf(snapshot, v.s.pool, reason, refused, blocks) ==
                CallsOf(snapshot, w.s.pool, reason, refused, blocks)
    {
      hide CallsOf, LoadHistory;
      AttachedAreListed(v.s.active, v.s.pool);
      SnapshotCalls(AttachedInOrder(v.s.active, v.s.pool), v.s.pool, w.s.pool, reason, refused, blocks);
    }

    /** LdkDisableThreadLibraryCalls, for a handle that is not null. */
    method DisableThreadCalls(handle: Ptr) returns (status: Status)
      requires Valid()
      modifies this
      ensures Valid()
      ensures status == if !old(Loadable(S(), handle)) then NotFound
                        else if !old(pool)[handle].attached then InvalidHandle else Success
      ensures status != Success ==> V() == old(V())
      ensures PinsKept(old(S()), S())
      ensures status == Success ==>
                var m := old(pool)[handle].(threadCallsOff := true);
                V() == old(V()).(s := old(S()).(pool := old(pool)[handle := m]))
    {
      hide Lawful, Inv, Names, SameHistory;
      LawfulFacts(V());
      // A built-in module has no base, so it is not found.
      if handle !in active || pool[handle].builtin {
        return NotFound;
      }
      if !pool[handle].attached {
        return InvalidHandle;
      }
      ThreadCallsOffStep(V(), handle);
      pool := pool[handle := pool[handle].(threadCallsOff := true)];
      status := Success;
    }

    // ---------------------------------------------------------------- whole runs

    /** The registry after LdkpInitializePeb: the built-in modules, in order. */
    constructor (files: map<string, File>, builtins: seq<Builtin>, tlsSlots: nat, span: Ptr -> Span,
                 clientTls: set<nat>, ghost rank: string -> nat)
      requires forall f, i :: f in files && i in files[f].imports ==> rank(i) < rank(f)
      ensures Valid() && held == multiset{}
      ensures this.files == files && builtinNames == (set b | b in builtins :: b.name) && this.rank == rank
              && this.tlsSlots == tlsSlots && this.span == span
      ensures |active| == |builtins| && log == [] && tlsBits == clientTls
      ensures forall i :: 0 <= i < |builtins| ==>
                && active[i] in pool && pool[active[i]].builtin
                && pool[active[i]].name == builtins[i].name && pool[active[i]].path == builtins[i].path
                && !pool[active[i]].attached && pool[active[i]].deps == [] && pool[active[i]].tls == None
    {
      this.files, this.tlsSlots, this.span, this.clientTls, this.rank := files, tlsSlots, span, clientTls, rank;
      builtinNames := set b | b in builtins :: b.name;
      active := seq(|builtins|, i => i);
      pool := map i | 0 <= i < |builtins| :: BuiltinModule(builtins[i]);
      nextRecord := |builtins|;
      tlsBits := clientTls;
      log := [];
      held := multiset{};
      new;
      BuiltinsAreLawful(V(), builtins);
    }

    /** These modules are registered under the suffixed name of an import that one of the loads met. */
    ghost predicate LeaksOfCalls(ops: seq<Op>, leaked: multiset<Ptr>, pool: Pool)
      requires WellFounded()
    {
      forall p :: p in leaked ==>
        p in pool && exists k :: 0 <= k < |ops| && ops[k].Load? && Suffixed(ops[k].name, pool[p].name)
    }

    /** Any sequence of calls by clients that never release a handle they do not hold, up to a call in
        which a reference would be lost because its count stands at MAXLONG.  Whatever was called, after every
        call the loadable modules registered are those reachable from a reference or a pin, and what was pinned
        is pinned still; after the last call the references are the handles of the clients and what imports by
        suffixed names have leaked.  `views` are the states between the calls, each the effect of its call. */
    method Run(ops: seq<Op>)
      returns (done: nat, handles: multiset<Ptr>, ghost leaked: multiset<Ptr>, ghost views: seq<View>)
      requires Valid() && held == multiset{}
      modifies this
      ensures Valid() && done <= |ops|
      ensures done < |ops| ==> AtLimit(S())
      ensures done == |ops| ==> held == handles + leaked && LeaksOfCalls(ops, leaked, pool)
      ensures done == |ops| && (forall k :: 0 <= k < |ops| && ops[k].Load? ==> ExactNames(ops[k].name)) ==>
                leaked == multiset{}
      ensures views != [] && views[0] == old(V()) && views[|views| - 1] == V()
      ensures |views| == if done < |ops| then done + 2 else done + 1
      ensures forall k, p :: 0 <= k < |views| ==> (Loadable(views[k].s, p) <==> Reachable(views[k].s, p))
      ensures forall k, l :: 0 <= k < l < |views| ==> PinsKept(views[k].s, views[l].s)
      ensures forall k :: 0 <= k < done ==> Effect(ops[k], views[k], views[k + 1])
      ensures forall k, l :: 0 <= k < done && k < l < |views| ==> PinHolds(ops[k], views[k].s, views[l].s)
    {
      hide Lawful, Inv, Quiet, Names, WellFounded, Reachable, LeaksOfCalls, ExactNames, Suffixed, AtLimit;
      hide PinsKept, Effect, Collects, History, Due, PinHolds;
      done, handles, leaked, views := 0, multiset{}, multiset{}, [V()];
      NoCallsNoLeaks();
      HistoryBegins(ops, V());
      var stopped := false;
      while done < |ops| && !stopped
        invariant Valid() && done <= |ops|
        invariant if stopped then done < |ops| && AtLimit(S())
                  else held == handles + leaked && LeaksOfCalls(ops[..done], leaked, pool)
        invariant |views| == done + 1 && History(ops, views, done) && views[0] == old(V())
        invariant if stopped then PinsKept(views[done].s, S()) else views[done] == V()
        decreases |ops| - done, !stopped
      {
        ghost var before := pool;
        ghost var more;
        stopped, handles, more := Perform(ops[done], handles, leaked);
        if !stopped {
          LawfulFacts(V());
          assert leaked <= held;
          CallsLeak(ops, done, leaked, more, before, pool);
          leaked := leaked + more;
          HistoryGoesOn(ops, views, done, V());
          views := views + [V()];
          done := done + 1;
        }
      }
      HistoryEnds(ops, views, done, V());
      if stopped {
        views := views + [V()];
      }
      PinsHold(ops, views, done);
      if done == |ops| {
        assert ops[..done] == ops;
        ExactCallsLeakNothing(ops, leaked);
      }
    }

    /** What the call pins is pinned later on. */
    static ghost predicate PinHolds(op: Op, s: State, later: State) {
      op.AddRef? && op.pin && Loadable(s, op.handle) ==> Pinned(later, op.handle)
    }

    lemma PinsHold(ops: seq<Op>, views: seq<View>, n: nat)
      requires n <= |ops| && |views| > n
      requires forall k, l :: 0 <= k < l < |views| ==> PinsKept(views[k].s, views[l].s)
      requires forall k :: 0 <= k < n ==> Effect(ops[k], views[k], views[k + 1])
      ensures forall k, l :: 0 <= k < n && k < l < |views| ==> PinHolds(ops[k], views[k].s, views[l].s)
    {
      hide Effect, PinsKept;
      forall k, l | 0 <= k < n && k < l < |views|
        ensures PinHolds(ops[k], views[k].s, views[l].s)
      {
        if ops[k].AddRef? && ops[k].pin && Loadable(views[k].s, ops[k].handle) {
          assert Effect(ops[k], views[k], views[k + 1]);
          PinTakesEffect(ops[k], views[k], views[k + 1]);
          PinStays(views[k + 1].s, views[l].s, ops[k].handle, k + 1 == l);
        }
      }
    }

    lemma PinTakesEffect(op: Op, v: View, w: View)
      requires op.AddRef? && op.pin && Loadable(v.s, op.handle) && Effect(op, v, w)
      ensures Pinned(w.s, op.handle)
    {
      ReferenceKeepsPins(v.s, op.handle, true, true);
    }

    static lemma PinStays(s: State, s': State, p: Ptr, same: bool)
      requires Pinned(s, p) && (if same then s == s' else PinsKept(s, s'))
      ensures Pinned(s', p)
    {
    }

    /** The states before the first call and after each of `n`. */
    ghost predicate History(ops: seq<Op>, views: seq<View>, n: nat) {
      && n <= |ops| && |views| == n + 1
      && (forall k :: 0 <= k < |views| ==> Collects(views[k].s))
      && (forall k, l :: 0 <= k < l < |views| ==> PinsKept(views[k].s, views[l].s))
      && (forall k :: 0 <= k < n ==> Effect(ops[k], views[k], views[k + 1]))
    }

    lemma HistoryBegins(ops: seq<Op>, v: View)
      requires Lawful(v) && Quiet(v.s)
      ensures History(ops, [v], 0)
    {
      hide Lawful, Collects;
      CollectsExactly(v);
    }

    lemma HistoryGoesOn(ops: seq<Op>, views: seq<View>, n: nat, v: View)
      requires History(ops, views, n) && n < |ops| && Lawful(v) && Quiet(v.s)
      requires PinsKept(views[n].s, v.s) && Effect(ops[n], views[n], v)
      ensures History(ops, views + [v], n + 1)
    {
      hide Lawful, Collects, PinsKept, Effect;
      CollectsExactly(v);
      PinsStayKept(views, v);
    }

    lemma HistoryEnds(ops: seq<Op>, views: seq<View>, n: nat, v: View)
      requires History(ops, views, n) && Lawful(v) && Quiet(v.s)
      ensures forall k, p :: 0 <= k < |views| ==> (Loadable(views[k].s, p) <==> Reachable(views[k].s, p))
      ensures forall k, l :: 0 <= k < l < |views| ==> PinsKept(views[k].s, views[l].s)
      ensures forall k :: 0 <= k < n ==> Effect(ops[k], views[k], views[k + 1])
      ensures PinsKept(views[n].s, v.s) ==>
                && (forall k, p :: 0 <= k <= |views| ==>
                      (Loadable((views + [v])[k].s, p) <==> Reachable((views + [v])[k].s, p)))
                && (forall k, l :: 0 <= k < l <= |views| ==> PinsKept((views + [v])[k].s, (views + [v])[l].s))
    {
      hide Lawful, Collects, PinsKept, Effect, Reachable, Loadable, Quiet;
      AllCollect(views);
      if PinsKept(views[n].s, v.s) {
        CollectsExactly(v);
        AllCollect(views + [v]);
        PinsStayKept(views, v);
      }
    }

    lemma NoCallsNoLeaks()
      requires WellFounded()
      ensures LeaksOfCalls([], multiset{}, pool)
    {
    }

    lemma CallsLeak(ops: seq<Op>, done: nat, leaked: multiset<Ptr>, more: multiset<Ptr>, before: Pool, pool: Pool)
      requires WellFounded() && done < |ops| && LeaksOfCalls(ops[..done], leaked, before) && NamesKept(before, pool)
      requires more == multiset{} || (ops[done].Load? && LeaksOf(ops[done].name, more, pool))
      requires forall p :: p in leaked ==> p in pool
      ensures LeaksOfCalls(ops[..done + 1], leaked + more, pool)
    {
      hide Suffixed;
      var some := ops[..done + 1];
      assert some[done] == ops[done] && ops[..done] == some[..done];
      forall p | p in leaked + more
        ensures p in pool && exists k :: 0 <= k < |some| && some[k].Load? && Suffixed(some[k].name, pool[p].name)
      {
        if p in leaked {
          var k :| 0 <= k < done && ops[..done][k].Load? && Suffixed(ops[..done][k].name, before[p].name);
          assert some[k] == ops[..done][k];
        } else {
          assert Suffixed(some[done].name, pool[p].name);
        }
      }
    }

    lemma ExactCallsLeakNothing(ops: seq<Op>, leaked: multiset<Ptr>)
      requires Valid() && LeaksOfCalls(ops, leaked, pool) && leaked <= held
      ensures (forall k :: 0 <= k < |ops| && ops[k].Load? ==> ExactNames(ops[k].name)) ==> leaked == multiset{}
    {
      hide Suffixed;
      if leaked != multiset{} {
        var p :| p in leaked;
        HeldIsNamed(p);
        var k :| 0 <= k < |ops| && ops[k].Load? && Suffixed(ops[k].name, pool[p].name);
        ExactlyNot(ops[k].name, pool[p].name);
      }
    }

    lemma ExactlyNot(name: string, n: string)
      requires WellFounded() && n in Names()
      ensures ExactNames(name) ==> !Suffixed(name, n)
    {
    }

    /** Registered is exactly what is reachable. */
    static ghost predicate Collects(s: State) {
      forall p :: Loadable(s, p) <==> Reachable(s, p)
    }

    static lemma CollectsExactly(v: View)
      requires Lawful(v) && Quiet(v.s)
      ensures Collects(v.s)
    {
      hide Inv, Reachable, Quiet;
      forall p ensures Loadable(v.s, p) <==> Reachable(v.s, p) {
        CountingIsExactCollection(v.s, p);
      }
    }

    static lemma AllCollect(views: seq<View>)
      requires forall k :: 0 <= k < |views| ==> Collects(views[k].s)
      ensures forall k, p :: 0 <= k < |views| ==> (Loadable(views[k].s, p) <==> Reachable(views[k].s, p))
    {
      hide Reachable, Loadable;
      forall k, p | 0 <= k < |views|
        ensures Loadable(views[k].s, p) <==> Reachable(views[k].s, p)
      {
        assert Collects(views[k].s);
      }
    }

    static lemma PinsStayKept(views: seq<View>, v: View)
      requires views != [] && PinsKept(views[|views| - 1].s, v.s)
      requires forall k, l :: 0 <= k < l < |views| ==> PinsKept(views[k].s, views[l].s)
      ensures forall k, l :: 0 <= k < l < |views + [v]| ==> PinsKept((views + [v])[k].s, (views + [v])[l].s)
    {
      var all, last := views + [v], |views| - 1;
      forall k, l | 0 <= k < l < |all|
        ensures PinsKept(all[k].s, all[l].s)
      {
        if l == |views| && k < last {
          assert PinsKept(views[k].s, views[last].s);
          PinsKeptThen(views[k].s, views[last].s, v.s);
        }
      }
    }

    static lemma PinsKeptThen(s: State, s': State, s'': State)
      requires PinsKept(s, s') && PinsKept(s', s'')
      ensures PinsKept(s, s'')
    {
    }

    /** What a call does to the table, where that is settled: a reference or a pin is taken where one is due, an
        unload gives up one reference, and neither a notification nor the end of thread calls touches any. */
    ghost predicate Effect(op: Op, v: View, w: View) {
      match op
      case Load(name, _, _) => Loading(v, w)
      case Unload(handle) =>
        && Collected(v.s, w.s)
        && (w.s.held == v.s.held || (Loadable(v.s, handle) && w.s.held == v.s.held - multiset{handle}))
      case AddRef(handle, pin) =>
        w == if handle in v.s.active && handle in v.s.pool then v.(s := AfterReference(v.s, handle, pin, true)) else v
      case GetHandle(_, _, pin, increment) =>
        w == v || exists p :: p in v.s.pool && w == v.(s := AfterReference(v.s, p, pin, increment))
      case GetHandleByAddress(address, pin, increment) =>
        && Allocated(v.s.active, v.s.pool)
        && var found := LookupAddress(v.s.active, v.s.pool, span, address);
           w == if found.Some? && found.value in v.s.pool
                then v.(s := AfterReference(v.s, found.value, pin, increment)) else v
      case DisableThreadCalls(handle) =>
        w == if Loadable(v.s, handle) && v.s.pool[handle].attached
             then v.(s := v.s.(pool := v.s.pool[handle := v.s.pool[handle].(threadCallsOff := true)])) else v
      case ThreadNotification(_, _, _) => w.s == v.s && w.bits == v.bits
    }

    /** What a call gives the client, where that is settled: a handle for each counted reference to a module that
        is found, and for each load that was given what it needs; the handle it gives back is gone. */
    ghost predicate Due(op: Op, handles: multiset<Ptr>, handles': multiset<Ptr>,
                        before: seq<Question>, asked: seq<Question>, v: View, w: View)
    {
      match op
      case Load(name, resolveImports, resourceOnly) =>
        Served(asked, |before|) && FoundOrThere(v, name, resolveImports && !resourceOnly, resourceOnly) ==>
          exists p :: Loadable(w.s, p) && handles' == handles + multiset{p}
      case Unload(handle) =>
        if handle in handles then w.s.held == v.s.held - multiset{handle} && handles' == handles - multiset{handle}
        else w.s.held == v.s.held && handles' == handles
      case AddRef(handle, _) => handles' == if Loadable(v.s, handle) then handles + multiset{handle} else handles
      case GetHandle(name, path, pin, increment) =>
        && Allocated(v.s.active, v.s.pool)
        && (|before| < |asked| && granted(|before|) && Sought(v.s.active, v.s.pool, name, path).Some? ==>
              var p := Sought(v.s.active, v.s.pool, name, path).value;
              && p in v.s.pool && w == v.(s := AfterReference(v.s, p, pin, increment))
              && handles' == if increment && Loadable(v.s, p) then handles + multiset{p} else handles)
      case GetHandleByAddress(address, pin, increment) =>
        && Allocated(v.s.active, v.s.pool)
        && handles' == if increment && LookupAddress(v.s.active, v.s.pool, span, address).Some?
                       then handles + multiset{LookupAddress(v.s.active, v.s.pool, span, address).value} else handles
      case DisableThreadCalls(_) => handles' == handles
      case ThreadNotification(_, _, _) => handles' == handles
    }

    /** Nothing built in is found under the name, and there is what a load needs. */
    ghost predicate FoundOrThere(v: View, name: string, resolve: bool, resourceOnly: bool) {
      && Allocated(v.s.active, v.s.pool)
      && (FindEither(v.s.active, v.s.pool, name, resourceOnly).None? ||
          Loadable(v.s, FindEither(v.s.active, v.s.pool, name, resourceOnly).value))
      && (if resolve then CanLoad(v.s, v.bits, name) else name in files)
    }

    /** One call of a client; `more` are the references it leaks. */
    method Perform(op: Op, handles: multiset<Ptr>, ghost leaked: multiset<Ptr>)
      returns (stopped: bool, handles': multiset<Ptr>, ghost more: multiset<Ptr>)
      requires Valid() && held == handles + leaked
      modifies this
      ensures Valid()
      ensures stopped ==> AtLimit(S())
      ensures !stopped ==> held == handles' + (leaked + more) && NamesKept(old(pool), pool)
      ensures !stopped ==> more == multiset{} || (op.Load? && LeaksOf(op.name, more, pool))
      ensures PinsKept(old(S()), S()) && (!stopped ==> Effect(op, old(V()), V()))
      ensures !stopped ==> Due(op, handles, handles', old(asked), asked, old(V()), V())
    {
      hide Lawful, Inv, Quiet, Names, WellFounded, Lookup, LeaksOf, AtLimit, Effect, Due, PinsKept, NamesKept;
      LawfulFacts(V());
      ghost var v, was := V(), asked;
      stopped, handles', more := false, handles, multiset{};
      assert leaked + multiset{} == leaked;
      match op {
        case Load(name, resolveImports, resourceOnly) =>
          stopped, handles', more := PerformLoad(name, resolveImports, resourceOnly, handles, leaked);
        case Unload(handle) =>
          if handle in handles || handle !in active || pool[handle].builtin {
            handles' := PerformUnload(handle, handles, leaked);
          } else {
            NotUnloaded(handle, handles);
          }
        case AddRef(handle, pin) =>
          stopped, handles' := PerformAddRef(handle, pin, handles, leaked);
        case GetHandle(name, path, pin, increment) =>
          stopped, handles' := PerformGetHandle(name, path, pin, increment, handles, leaked);
        case GetHandleByAddress(address, pin, increment) =>
          stopped, handles' := PerformGetHandleByAddress(address, pin, increment, handles, leaked);
        case DisableThreadCalls(handle) =>
          var _ := DisableThreadCalls(handle);
          CallsSwitchedOff(handle, v, handles, was, asked);
        case ThreadNotification(reason, refused, blocks) =>
          var status, _, _ := CallThreadNotifications(reason, refused, blocks);
          stopped := status == Saturated;
          if !stopped {
            ThreadsNotified(op, v, handles, was, asked);
          }
      }
    }

    /** A client that holds no such handle does not unload it. */
    lemma NotUnloaded(handle: Ptr, handles: multiset<Ptr>)
      requires Lawful(V()) && handle !in handles
      ensures Effect(Unload(handle), V(), V()) && Due(Unload(handle), handles, handles, asked, asked, V(), V())
      ensures PinsKept(S(), S()) && NamesKept(pool, pool)
    {
      hide Lawful, Collected;
      NoStep(V());
    }

    lemma CallsSwitchedOff(handle: Ptr, v: View, handles: multiset<Ptr>, before: seq<Question>, asked: seq<Question>)
      requires V() == if Loadable(v.s, handle) && v.s.pool[handle].attached
                      then v.(s := v.s.(pool := v.s.pool[handle := v.s.pool[handle].(threadCallsOff := true)])) else v
      ensures Effect(Op.DisableThreadCalls(handle), v, V()) && NamesKept(v.s.pool, pool)
      ensures Due(Op.DisableThreadCalls(handle), handles, handles, before, asked, v, V())
    {
    }

    lemma ThreadsNotified(op: Op, v: View, handles: multiset<Ptr>, before: seq<Question>, asked: seq<Question>)
      requires op.ThreadNotification? && S() == v.s && tlsBits == v.bits
      ensures Effect(op, v, V()) && Due(op, handles, handles, before, asked, v, V()) && NamesKept(v.s.pool, pool)
    {
    }

    method PerformLoad(name: string, resolveImports: bool, resourceOnly: bool,
                       handles: multiset<Ptr>, ghost leaked: multiset<Ptr>)
      returns (stopped: bool, handles': multiset<Ptr>, ghost more: multiset<Ptr>)
      requires Valid() && held == handles + leaked
      modifies this
      ensures Valid()
      ensures stopped ==> AtLimit(S())
      ensures PinsKept(old(S()), S())
      ensures !stopped ==>
                && Effect(Load(name, resolveImports, resourceOnly), old(V()), V())
                && Due(Load(name, resolveImports, resourceOnly), handles, handles', old(asked), asked, old(V()), V())
      ensures !stopped ==> held == handles' + (leaked + more) && NamesKept(old(pool), pool) && LeaksOf(name, more, pool)
    {
      hide Lawful, Inv, Quiet, Names, WellFounded, Lookup, Loading, FindEither, LeaksOf, AtLimit, Met;
      hide Decided, Served, CanLoad, Walked, LeakedBy, TlsNeeds, PinsKept, AfterReference, NamesKept, Due, Effect;
      ghost var v := V();
      var status, handle;
      ghost var looked, walk;
      status, handle, looked, walk, more := LoadDll(name, resolveImports, resourceOnly);
      stopped := status == Saturated;
      handles' := handles;
      if status == Success && !pool[handle].builtin {
        handles' := handles + multiset{handle};
      }
      LoadingFacts(v, V());
      GrownNames(v.s, S());
      GrownKeepsPins(v.s, S());
      if !stopped {
        LoadEffect(Load(name, resolveImports, resourceOnly), v, V());
        if FoundOrThere(v, name, resolveImports && !resourceOnly, resourceOnly) && Served(asked, |old(asked)|) {
          LoadIsDue(v, name, resolveImports && !resourceOnly, resourceOnly, old(asked), asked, status);
          if looked && FindEither(v.s.active, v.s.pool, name, resourceOnly).Some? {
            BuiltinReference(v.s, handle);
          }
        }
        HandleIsDue(name, resolveImports, resourceOnly, handle, handles, handles', old(asked), asked, v);
      }
    }

    lemma LoadEffect(op: Op, v: View, w: View)
      requires op.Load? && Loading(v, w)
      ensures Effect(op, v, w)
    {
    }

    lemma LoadIsDue(v: View, name: string, resolve: bool, resourceOnly: bool,
                    before: seq<Question>, asked: seq<Question>, status: Status)
      requires Decided(before, asked, status, if resolve then CanLoad(v.s, v.bits, name) else name in files)
      requires Served(asked, |before|) && FoundOrThere(v, name, resolve, resourceOnly)
      ensures status == Success || status == Saturated
    {
    }

    lemma HandleIsDue(name: string, resolveImports: bool, resourceOnly: bool, handle: Ptr, handles: multiset<Ptr>,
                      handles': multiset<Ptr>, before: seq<Question>, asked: seq<Question>, v: View)
      requires Served(asked, |before|) && FoundOrThere(v, name, resolveImports && !resourceOnly, resourceOnly) ==>
                 Loadable(S(), handle) && handles' == handles + multiset{handle}
      ensures Due(Load(name, resolveImports, resourceOnly), handles, handles', before, asked, v, V())
    {
    }

    method PerformAddRef(handle: Ptr, pin: bool, handles: multiset<Ptr>, ghost leaked: multiset<Ptr>)
      returns (stopped: bool, handles': multiset<Ptr>)
      requires Valid() && held == handles + leaked
      modifies this
      ensures Valid() && NamesKept(old(pool), pool)
      ensures stopped ==> AtLimit(S())
      ensures PinsKept(old(S()), S())
      ensures !stopped ==>
                && Effect(AddRef(handle, pin), old(V()), V())
                && Due(AddRef(handle, pin), handles, handles', old(asked), asked, old(V()), V())
      ensures !stopped ==> held == handles' + leaked
    {
      hide Lawful, Inv, Quiet, Names, WellFounded, AtLimit, PinsKept, NamesKept;
      LawfulFacts(V());
      var status := AddRefDll(handle, pin);
      stopped := status == Saturated;
      handles' := if status == Success && !pool[handle].builtin then handles + multiset{handle} else handles;
    }

    method PerformGetHandle(name: string, path: Option<string>, pin: bool, increment: bool,
                            handles: multiset<Ptr>, ghost leaked: multiset<Ptr>)
      returns (stopped: bool, handles': multiset<Ptr>)
      requires Valid() && held == handles + leaked
      modifies this
      ensures Valid() && NamesKept(old(pool), pool)
      ensures stopped ==> AtLimit(S())
      ensures PinsKept(old(S()), S())
      ensures !stopped ==>
                && Effect(GetHandle(name, path, pin, increment), old(V()), V())
                && Due(GetHandle(name, path, pin, increment), handles, handles', old(asked), asked, old(V()), V())
      ensures !stopped ==> held == handles' + leaked
    {
      hide Lawful, Inv, Quiet, Names, WellFounded, Lookup, AtLimit, PinsKept, NamesKept, Sought, AfterReference;
      hide Effect, Due;
      LawfulFacts(V());
      ghost var v := V();
      var status, handle := GetDllHandle(name, path, pin, increment);
      if status == Success {
        ReferenceKeepsRecord(v.s, handle, pin, increment);
      }
      stopped := status == Saturated;
      var counted := status == Success && increment && !pool[handle].builtin;
      handles' := if counted then handles + multiset{handle} else handles;
      if !stopped {
        HandleGiven(name, path, pin, increment, v, status, handle, handles, handles', old(asked), asked);
      }
    }

    lemma HandleGiven(name: string, path: Option<string>, pin: bool, increment: bool, v: View, status: Status, p: Ptr,
                      handles: multiset<Ptr>, handles': multiset<Ptr>, before: seq<Question>, asked: seq<Question>)
      requires Allocated(v.s.active, v.s.pool)
      requires asked == if pin && !increment then before else before + [HandleName]
      requires status == InvalidParameter ==> pin && !increment
      requires status == Failed ==> !granted(|before|)
      requires status == NotFound ==> Sought(v.s.active, v.s.pool, name, path).None?
      requires status == Success || status == InvalidParameter || status == NotFound || status == Failed
      requires status != Success ==> V() == v && handles' == handles
      requires status == Success ==>
                 && Sought(v.s.active, v.s.pool, name, path) == Some(p)
                 && V() == v.(s := AfterReference(v.s, p, pin, increment))
                 && handles' == if increment && !v.s.pool[p].builtin then handles + multiset{p} else handles
      ensures Effect(GetHandle(name, path, pin, increment), v, V())
      ensures Due(GetHandle(name, path, pin, increment), handles, handles', before, asked, v, V())
    {
      hide Sought, AfterReference;
    }

    method PerformGetHandleByAddress(address: nat, pin: bool, increment: bool,
                                     handles: multiset<Ptr>, ghost leaked: multiset<Ptr>)
      returns (stopped: bool, handles': multiset<Ptr>)
      requires Valid() && held == handles + leaked
      modifies this
      ensures Valid() && NamesKept(old(pool), pool)
      ensures stopped ==> AtLimit(S())
      ensures PinsKept(old(S()), S())
      ensures !stopped ==>
                && Effect(GetHandleByAddress(address, pin, increment), old(V()), V())
                && Due(GetHandleByAddress(address, pin, increment), handles, handles', old(asked), asked, old(V()), V())
      ensures !stopped ==> held == handles' + leaked
    {
      hide Lawful, Inv, Quiet, Names, WellFounded, LookupAddress, AtLimit, PinsKept, NamesKept, AfterReference;
      hide Effect, Due;
      LawfulFacts(V());
      ghost var v := V();
      var status, handle := ReferenceModuleByAddress(address, pin, increment);
      if status == Success {
        ReferenceKeepsRecord(v.s, handle, pin, increment);
      }
      stopped := status == Saturated;
      var counted := status == Success && increment && !pool[handle].builtin;
      handles' := if counted then handles + multiset{handle} else handles;
      if !stopped {
        HandleGivenByAddress(address, pin, increment, v, status, handle, handles, handles', old(asked), asked);
      }
    }

    lemma HandleGivenByAddress(address: nat, pin: bool, increment: bool, v: View, status: Status, p: Ptr,
                               handles: multiset<Ptr>, handles': multiset<Ptr>,
                               before: seq<Question>, asked: seq<Question>)
      requires Allocated(v.s.active, v.s.pool)
      requires status == Success || status == NotFound
      requires status == NotFound ==>
                 LookupAddress(v.s.active, v.s.pool, span, address).None? && V() == v && handles' == handles
      requires status == Success ==>
                 && LookupAddress(v.s.active, v.s.pool, span, address) == Some(p)
                 && V() == v.(s := AfterReference(v.s, p, pin, increment))
                 && handles' == if increment then handles + multiset{p} else handles
      ensures Effect(GetHandleByAddress(address, pin, increment), v, V())
      ensures Due(GetHandleByAddress(address, pin, increment), handles, handles', before, asked, v, V())
    {
      hide LookupAddress, AfterReference;
    }

    method PerformUnload(handle: Ptr, handles: multiset<Ptr>, ghost leaked: multiset<Ptr>)
      returns (handles': multiset<Ptr>)
      requires Valid() && held == handles + leaked
      requires Loadable(S(), handle) ==> handle in handles
      modifies this
      ensures Valid() && held == handles' + leaked && NamesKept(old(pool), pool)
      ensures PinsKept(old(S()), S())
      ensures Effect(Unload(handle), old(V()), V())
      ensures Due(Unload(handle), handles, handles', old(asked), asked, old(V()), V())
    {
      hide Lawful, Inv, Quiet, Names, WellFounded, Collected, SameHistory, PinsKept, NamesKept;
      hide Effect, Due;
      ghost var w := V();
      LawfulFacts(w);
      assert handle in handles ==> handle in held;
      var _ := UnloadDll(handle);
      CollectedQuiet(w.s, S());
      handles' := if handle in handles then handles - multiset{handle} else handles;
      HandleGivenBack(handle, w, handles, handles', old(asked), asked);
    }

    lemma HandleGivenBack(handle: Ptr, v: View, handles: multiset<Ptr>, handles': multiset<Ptr>,
                          before: seq<Question>, asked: seq<Question>)
      requires Collected(v.s, S()) && (handle in handles <==> Loadable(v.s, handle))
      requires held == if Loadable(v.s, handle) then v.s.held - multiset{handle} else v.s.held
      requires handles' == if handle in handles then handles - multiset{handle} else handles
      ensures Effect(Unload(handle), v, V()) && Due(Unload(handle), handles, handles', before, asked, v, V())
    {
      hide Collected, Loadable;
    }

    /** A module without dependencies that alone is held is alone in the table. */
    static lemma AloneInTable(v: View, w: View, p: Ptr)
      requires Lawful(w) && Quiet(w.s) && Grown(v.s, w.s) && v.s.active == [] && v.s.pool == map[]
      requires w.s.held == multiset{p} && p in w.s.pool && w.s.pool[p].deps == []
      ensures forall q :: q in w.s.pool ==> q == p
    {
      assert w.s.active[|v.s.active|..] == w.s.active;
      forall q | q in w.s.pool
        ensures q == p
      {
        assert q in w.s.active;
        CountingIsExactCollection(w.s, q);
        var path :| PathTo(w.s, path, q);
        assert path[0] in w.s.active;
        SecondOnPath(w.s.pool, path);
      }
    }

    static lemma SecondOnPath(pool: Pool, path: seq<Ptr>)
      requires Path(pool, path)
      ensures |path| > 1 ==> path[1] in pool[path[0]].deps
    {
    }

    static lemma NoImportsNoDependencies(active: seq<Ptr>, pool: Pool, files: map<string, File>, list: seq<Ptr>)
      requires Met(active, pool, files, [], list)
      ensures list == []
    {
      assert list != [] ==> Wanted(active, pool, files, [], list[0]);
    }

    lemma NothingRegistered()
      requires Valid() && active == []
      ensures pool == map[]
    {
      assert pool.Keys == Elems(active);
    }

    lemma NothingIsFound(name: string, resourceOnly: bool)
      requires active == []
      ensures Allocated(active, pool) && FindEither(active, pool, name, resourceOnly).None?
    {
    }

    /** Two imports, resolved one after the other. */
    lemma TwoResolved(v: View, first: string, second: string, walk: seq<Resolution>)
      requires WellFounded() && Walked(v, [first, second], walk)
      ensures |walk| == 2 && Resolves(first, walk[0]) && Resolves(second, walk[1])
      ensures walk[0].before == v && walk[0].list == []
      ensures walk[1].before == walk[0].after && walk[1].list == walk[0].list'
      ensures LeakedBy(walk) == (walk[0].own + walk[0].nested) + (walk[1].own + walk[1].nested)
    {
      hide Resolves;
      assert walk[..1][..0] == [] && [first, second][..1] == [first];
      assert LeakedBy(walk[..1]) == walk[0].own + walk[0].nested;
    }

    static lemma FoldKeepsLength(n: string)
      ensures |Fold(n)| == |n|
    {
    }

    /** The only names there are: no module can be called "a.dll.dll". */
    lemma NamesOfTwice(v: View, p: Ptr)
      requires WellFounded() && files == TWICE && v.names == {"top.dll", "a.dll"}
      requires RecordsOk(v) && p in v.s.active && p in v.s.pool
      ensures !SuffixedImport("a.dll", v.s.pool[p].name)
      ensures SameName(v.s.pool[p].name, "a.dll") || SuffixedImport("a", v.s.pool[p].name) ==>
                v.s.pool[p].name == "a.dll"
    {
      hide WellFounded, Fold;
      var n := v.s.pool[p].name;
      FoldKeepsLength(n);
      FoldKeepsLength("a.dll");
      FoldKeepsLength("a.dll.dll");
      assert "a" !in files && "a" + ".dll" == "a.dll" && "a.dll" + ".dll" == "a.dll.dll";
      assert n == "top.dll" || n == "a.dll";
      assert n == "top.dll" ==> !SameName(n, "a.dll") && !Suffixed("a", n) && !SuffixedImport("a", n);
    }

    /** The first import brings "a.dll" in, alone. */
    lemma FirstName(r: Resolution)
      requires WellFounded() && files == TWICE && r.before.names == {"top.dll", "a.dll"}
      requires r.before.s == State([], map[], multiset{}) && r.list == [] && Resolves("a.dll", r)
      ensures var p, t := r.target, r.after.s;
              && p in t.active && p in t.pool && t.pool[p].name == "a.dll" && t.pool[p].deps == []
              && !t.pool[p].builtin && !t.pool[p].resourceOnly
              && r.list' == [p] && t.held == multiset{p} && r.own + r.nested == multiset{}
    {
      hide WellFounded, Inv, Met, SuffixedImport, TlsLaw, LogLaw, Recorded, Quiet;
      var p, t := r.target, r.after.s;
      NoImportsNoDependencies(t.active, t.pool, files, t.pool[p].deps);
      assert t.active[|r.before.s.active|..] == t.active;
      assert Quiet(t) && !Aliased([], map[], "a.dll", []);
      forall q | q in r.own + r.nested
        ensures false
      {
        assert q in Elems(t.active) by { assert t.pool.Keys == Elems(t.active); }
        NamesOfTwice(r.after, q);
      }
    }

    /** The second name finds it again, and its reference is leaked. */
    lemma SecondName(v: View, r: Resolution, p: Ptr)
      requires WellFounded() && files == TWICE && Resolves("a", r) && r.list == [p]
      requires Lawful(r.before) && Quiet(r.before.s) && Grown(v.s, r.before.s) && v.s.active == [] && v.s.pool == map[]
      requires r.before.s.held == multiset{p} && p in r.before.s.pool && r.before.s.pool[p].deps == []
      requires r.before.s.pool[p].name == "a.dll" && !r.before.s.pool[p].resourceOnly
      ensures r.own + r.nested == multiset{p}
    {
      hide WellFounded, Lawful, Quiet, Grown, Loading, Provides, Exchanged, LeaksOfImport, Met, Lookup, FindEither;
      AloneInTable(v, r.before, p);
      LawfulFacts(r.before);
      assert "a" !in files;
      assert r.target == p;
      NotUnderShortName(r.before.s.active, r.before.s.pool, p);
    }

    static lemma NotUnderShortName(active: seq<Ptr>, pool: Pool, p: Ptr)
      requires Allocated(active, pool) && p in pool && pool[p].name == "a.dll" && forall q :: q in pool ==> q == p
      ensures Lookup(active, pool, "a", false).None?
    {
      FoldKeepsLength("a.dll");
      FoldKeepsLength("a");
    }

    lemma OnlyTwoNames()
      requires files == TWICE && builtinNames == {}
      ensures Names() == {"top.dll", "a.dll"}
    {
      assert files["top"].moduleName == "top.dll" && files["a.dll"].moduleName == "a.dll";
      assert files.Keys == {"top", "a.dll"};
    }

    /** What a load of "top" can leak is "a.dll". */
    lemma WhatIsLeft(p: Ptr)
      requires Valid() && files == TWICE && Names() == {"top.dll", "a.dll"} && p in held
               && LeaksOf("top", multiset{p}, pool)
      ensures Loadable(S(), p) && pool[p].name == "a.dll"
    {
      hide WellFounded, Inv, TlsLaw, LogLaw, Recorded, SuffixedImport;
      LawfulFacts(V());
      NamesOfTwice(V(), p);
      assert p in multiset{p};
      var k :| 0 <= k < |files["top"].imports| && SuffixedImport(files["top"].imports[k], pool[p].name);
    }

    /** Every load of "top" leaks one reference to "a.dll". */
    lemma TwiceLeaks(v: View, walk: seq<Resolution>)
      requires WellFounded() && files == TWICE && v.names == {"top.dll", "a.dll"}
      requires v.s == State([], map[], multiset{}) && Walked(v, ["a.dll", "a"], walk)
      ensures walk != [] && LeakedBy(walk) == multiset{walk[0].target}
    {
      hide WellFounded, Walked, LeakedBy, Provides, Exchanged, LeaksOfImport, Origin, Aliased, Lawful, Quiet, Grown;
      TwoResolved(v, "a.dll", "a", walk);
      FirstName(walk[0]);
      SecondName(v, walk[1], walk[0].target);
    }

    // -------------------------------------------------------------- where the code leaks

    /** An import that is an alias: after the list of the importing module has been released again, the
        module is registered still, with one reference that no list and no caller will give back. */
    method AliasLeaks(from: string, name: string, list: seq<Ptr>)
      returns (status: Status, p: Ptr, ghost looked: bool, ghost nested: multiset<Ptr>)
      requires Valid() && from in files && name in files[from].imports
      requires Refs(list) <= held && Allocated(active, pool) && Aliased(active, pool, name, list)
      modifies this
      ensures Valid()
      ensures status == Success && looked ==>
                && old(FindEither(active, pool, name, false)) == Some(p)
                && Loadable(S(), p)
                && held == old(held) - Refs(list) + multiset{p} + nested
    {
      hide WellFounded, Lawful, Inv, Grown, Names, Edges, Loading, Collected, SameHistory;
      hide Quiet, Lookup, FindEither, SuffixedImport, Provides, AtLimit, Exchanged, LeaksOfImport;
      hide Origin, NamesKept, Refs, Snoc;
      var list';
      ghost var own;
      status, p, list', looked, own, nested := ResolveImportModule(from, name, list);
      if status == Success {
        ghost var w := V();
        HeldWithList(list, list', p, own, nested, old(held));
        ReleaseModuleDependencies(list');
        CollectedQuiet(w.s, S());
        LawfulFacts(V());
        assert looked ==> p in held;
      }
    }

    lemma HeldWithList(list: seq<Ptr>, list': seq<Ptr>, p: Ptr, own: multiset<Ptr>, nested: multiset<Ptr>,
                       before: multiset<Ptr>)
      requires Exchanged(before, list, held, list', own + nested) && Refs(list) <= before
      ensures Refs(list') <= held
      ensures list' == list && own == multiset{p} ==> held - Refs(list') == before - Refs(list) + multiset{p} + nested
    {
    }
  }

  // ---------------------------------------------------------------- where the code falls short

  ghost function Releases(s: State, p: Ptr, n: nat): State {
    if n == 0 then s else Released(Releases(s, p, n - 1), p)
  }

  lemma ReleasedOnce(s: State, p: Ptr)
    requires p in s.active && p in s.pool && s.pool[p].loadCount > 1 && s.held[p] > 0 && s.pool[p].deps == []
    ensures var r := Released(s, p);
            && r.active == s.active && p in r.pool && r.pool[p].deps == []
            && r.pool[p].loadCount == s.pool[p].loadCount - 1 && r.held[p] == s.held[p] - 1
  {
  }

  lemma {:induction false} CountingDown(s: State, p: Ptr, n: nat)
    requires p in s.active && p in s.pool && n < s.pool[p].loadCount && n <= s.held[p] && s.pool[p].deps == []
    ensures var r := Releases(s, p, n);
            && r.active == s.active && p in r.pool && r.pool[p].deps == []
            && r.pool[p].loadCount == s.pool[p].loadCount - n && r.held[p] == s.held[p] - n
  {
    hide Released;
    if n > 0 {
      CountingDown(s, p, n - 1);
      ReleasedOnce(Releases(s, p, n - 1), p);
    }
  }

  /** A count that has reached MAXLONG no longer counts.  A module with that many handles is referenced
      once more; when as many handles are given back as were counted, it is unregistered and freed under
      the one handle that is left. */
  lemma SaturationLosesAModule(s: State, p: Ptr)
    requires Inv(s) && p in s.active && s.pool[p].Counted() && s.pool[p].loadCount == MAXLONG
    requires p !in Edges(s.active, s.pool) && s.pool[p].deps == []
    ensures var taken := AfterReference(s, p, false, true);
            && taken.held[p] == MAXLONG + 1
            && p in Releases(taken, p, MAXLONG - 1).active
            && p !in Releases(taken, p, MAXLONG).active && p !in Releases(taken, p, MAXLONG).pool
            && Releases(taken, p, MAXLONG).held[p] == 1
  {
    hide Edges, Releases;
    var taken := AfterReference(s, p, false, true);
    CountingDown(taken, p, MAXLONG - 1);
    var last := Releases(taken, p, MAXLONG - 1);
    InvFacts(s);
    WithoutElems(last.active, IndexOf(last.active, p));
    assert p !in Elems(Without(last.active, IndexOf(last.active, p)));
    LastRelease(taken, p, MAXLONG - 1);
  }

  lemma LastRelease(s: State, p: Ptr, n: nat)
    ensures Releases(s, p, n + 1) == Released(Releases(s, p, n), p)
  {
  }

  /** There is such a state. */
  lemma SaturatedState()
    ensures var m := FreshModule("a", "").(loadCount := MAXLONG);
            var s := State([0], map[0 := m], multiset{}[0 := MAXLONG]);
            Inv(s) && 0 !in Edges(s.active, s.pool) && m.deps == []
  {
    var m := FreshModule("a", "").(loadCount := MAXLONG);
    var s := State([0], map[0 := m], multiset{}[0 := MAXLONG]);
    assert s.active[..0] == [];
    assert Edges(s.active, s.pool) == multiset{};
  }

  /** "top.dll" imports "a.dll", and imports it again as "a". */
  const TWICE: map<string, File> := map[
    "top" := File("top.dll", "", ["a.dll", "a"], false),
    "a.dll" := File("a.dll", "", [], false)
  ]

  /** The second name is an alias.  Whenever "top" is loaded into an empty registry and unloaded again,
      the module "a.dll" stays behind, with one reference that nobody holds. */
  method SecondNameIsAnAlias() returns (status: Status, registry: Registry, ghost p: Ptr)
    ensures fresh(registry) && registry.Valid()
    ensures status == Success ==>
              && Loadable(registry.S(), p) && registry.pool[p].name == "a.dll"
              && registry.held == multiset{p}
  {
    hide Lawful, Inv, Quiet, Registry.Walked, Registry.LeakedBy, Registry.WellFounded, Registry.SuffixedImport;
    registry := new Registry(TWICE, [], 0, p => Span(0, 0), {}, name => if name == "top" then 1 else 0);
    ghost var v := registry.V();
    registry.OnlyTwoNames();
    registry.NothingRegistered();
    p := 0;
    registry.NothingIsFound("top", false);
    ghost var walk, leaked;
    status, walk, leaked := registry.LoadThenUnload("top", true, false);
    if status == Success {
      assert registry.files["top"].imports == ["a.dll", "a"];
      registry.TwiceLeaks(v, walk);
      p := walk[0].target;
      registry.WhatIsLeft(p);
    }
  }
}
