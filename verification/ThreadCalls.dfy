/** What the attached modules are called with when a thread starts or ends, and what becomes of the static
    TLS blocks of that thread. */
module ThreadCalls {
  import opened Wrappers
  import opened ModuleGraph
  import opened LoaderLaws

  datatype ThreadReason = ThreadAttach | ThreadDetach

  /** A call into a module when a thread starts or ends. */
  datatype ThreadCall = TlsCallbacks(target: Ptr) | EntryPoint(target: Ptr)

  /** What one module gets.  When a thread starts, a module whose static TLS block is missing and cannot be
      allocated is passed over; when a thread ends its block goes afterwards.  `blocks` are the TLS
      indices at which the thread has a block. */
  function CallOne(p: Ptr, m: Module, reason: ThreadReason, refused: bool,
                   calls: seq<ThreadCall>, blocks: set<nat>): (seq<ThreadCall>, set<nat>)
  {
    if reason == ThreadAttach && m.tls.Some? && m.tls.value !in blocks && refused then (calls, blocks)
    else
      (calls + [TlsCallbacks(p)] + (if m.threadCallsOff then [] else [EntryPoint(p)]),
       if m.tls.None? then blocks
       else if reason == ThreadAttach then blocks + {m.tls.value} else blocks - {m.tls.value})
  }

  /** What the modules of a snapshot get, in order. */
  function CallsOf(snapshot: seq<Ptr>, pool: Pool, reason: ThreadReason, refused: set<Ptr>,
                   blocks: set<nat>): (seq<ThreadCall>, set<nat>)
  {
    if snapshot == [] then ([], blocks)
    else
      var p := snapshot[|snapshot| - 1];
      var (calls, left) := CallsOf(snapshot[..|snapshot| - 1], pool, reason, refused, blocks);
      if p in pool then CallOne(p, pool[p], reason, p in refused, calls, left) else (calls, left)
  }

  /** References do not change who is called. */
  lemma {:induction false} SnapshotCalls(snapshot: seq<Ptr>, pool: Pool, pool': Pool, reason: ThreadReason,
                                         refused: set<Ptr>, blocks: set<nat>)
    requires forall p :: p in snapshot ==> p in pool && p in pool' && pool[p].SameButCount(pool'[p])
    ensures CallsOf(snapshot, pool, reason, refused, blocks) == CallsOf(snapshot, pool', reason, refused, blocks)
  {
    if snapshot != [] {
      SnapshotCalls(snapshot[..|snapshot| - 1], pool, pool', reason, refused, blocks);
    }
  }

  // ---------------------------------------------------------------- who is called

  /** The modules whose TLS callbacks are called, in order. */
  ghost function Notified(calls: seq<ThreadCall>): seq<Ptr> {
    if calls == [] then []
    else
      var c, before := calls[|calls| - 1], Notified(calls[..|calls| - 1]);
      if c.TlsCallbacks? then before + [c.target] else before
  }

  /** The modules whose entry point is called, in order. */
  ghost function Entered(calls: seq<ThreadCall>): seq<Ptr> {
    if calls == [] then []
    else
      var c, before := calls[|calls| - 1], Entered(calls[..|calls| - 1]);
      if c.EntryPoint? then before + [c.target] else before
  }

  /** Passed over when a thread starts: there is no block at its index, and none can be had. */
  ghost predicate PassedOver(m: Module, reason: ThreadReason, refused: bool, blocks: set<nat>) {
    reason == ThreadAttach && m.tls.Some? && m.tls.value !in blocks && refused
  }

  ghost function Reached(snapshot: seq<Ptr>, pool: Pool, reason: ThreadReason, refused: set<Ptr>,
                         blocks: set<nat>): set<Ptr>
  {
    set p | p in snapshot && p in pool && !PassedOver(pool[p], reason, p in refused, blocks)
  }

  ghost function WithEntry(reached: set<Ptr>, pool: Pool): set<Ptr> {
    set p | p in reached && p in pool && !pool[p].threadCallsOff
  }

  /** The indices of these modules. */
  ghost function Indices(modules: set<Ptr>, pool: Pool): set<nat> {
    set p | p in modules && p in pool && pool[p].tls.Some? :: pool[p].tls.value
  }

  /** No two entries share a TLS index. */
  ghost predicate OwnIndices(snapshot: seq<Ptr>, pool: Pool) {
    forall i, j :: 0 <= i < j < |snapshot| && HasTls(pool, snapshot[i]) && HasTls(pool, snapshot[j]) ==>
      pool[snapshot[i]].tls != pool[snapshot[j]].tls
  }

  /** The entry point is called directly after the TLS callbacks of its module. */
  ghost predicate EntryFollows(calls: seq<ThreadCall>) {
    forall i :: 0 <= i < |calls| && calls[i].EntryPoint? ==> i > 0 && calls[i - 1] == TlsCallbacks(calls[i].target)
  }

  /** Whoever is not passed over is called, in list order, its entry point only if its calls are not
      switched off; and the thread ends with, or without, exactly their blocks. */
  ghost predicate CalledInOrder(snapshot: seq<Ptr>, pool: Pool, reason: ThreadReason, refused: set<Ptr>,
                                blocks: set<nat>, calls: seq<ThreadCall>, left: set<nat>)
  {
    var reached := Reached(snapshot, pool, reason, refused, blocks);
    && Notified(calls) == Keep(snapshot, reached)
    && Entered(calls) == Keep(snapshot, WithEntry(reached, pool))
    && EntryFollows(calls)
    && left == if reason == ThreadAttach then blocks + Indices(reached, pool) else blocks - Indices(reached, pool)
  }

  lemma CalledNext(calls: seq<ThreadCall>, p: Ptr)
    requires EntryFollows(calls)
    ensures var tls, both := calls + [TlsCallbacks(p)], calls + [TlsCallbacks(p)] + [EntryPoint(p)];
            && Notified(tls) == Notified(both) == Notified(calls) + [p]
            && Entered(tls) == Entered(calls) && Entered(both) == Entered(calls) + [p]
            && EntryFollows(tls) && EntryFollows(both)
  {
    var tls, both := calls + [TlsCallbacks(p)], calls + [TlsCallbacks(p)] + [EntryPoint(p)];
    assert tls[..|calls|] == calls && both[..|tls|] == tls;
  }

  /** Each module gets what it is owed, whatever the others got before it. */
  lemma {:induction false} EachIsCalled(snapshot: seq<Ptr>, pool: Pool, reason: ThreadReason, refused: set<Ptr>,
                                        blocks: set<nat>)
    requires Allocated(snapshot, pool) && OwnIndices(snapshot, pool)
    ensures var (calls, left) := CallsOf(snapshot, pool, reason, refused, blocks);
            CalledInOrder(snapshot, pool, reason, refused, blocks, calls, left)
  {
    if snapshot != [] {
      hide CalledInOrder, CallOne;
      var init, p := snapshot[..|snapshot| - 1], snapshot[|snapshot| - 1];
      var (before, left) := CallsOf(init, pool, reason, refused, blocks);
      EachIsCalled(init, pool, reason, refused, blocks);
      OneMoreCalled(snapshot, pool, reason, refused, blocks, before, left);
      assert p in snapshot;
    }
  }

  /** The last module of a snapshot gets its calls behind those of the others. */
  lemma OneMoreCalled(snapshot: seq<Ptr>, pool: Pool, reason: ThreadReason, refused: set<Ptr>,
                      blocks: set<nat>, before: seq<ThreadCall>, left: set<nat>)
    requires snapshot != [] && Allocated(snapshot, pool) && OwnIndices(snapshot, pool)
    requires CalledInOrder(snapshot[..|snapshot| - 1], pool, reason, refused, blocks, before, left)
    ensures var p := snapshot[|snapshot| - 1];
            && p in pool
            && var (calls, left') := CallOne(p, pool[p], reason, p in refused, before, left);
               CalledInOrder(snapshot, pool, reason, refused, blocks, calls, left')
  {
    hide Keep, Reached, Indices, WithEntry, Notified, Entered, EntryFollows, OwnIndices;
    var p := snapshot[|snapshot| - 1];
    assert p in snapshot;
    IndexIsUntouched(snapshot, pool, reason, refused, blocks, left);
    CalledNext(before, p);
    OneMoreReached(snapshot, pool, reason, refused, blocks);
    assert before + [TlsCallbacks(p)] + [] == before + [TlsCallbacks(p)];
  }

  /** Whether there is a block at the index of the last module does not depend on the modules before. */
  lemma IndexIsUntouched(snapshot: seq<Ptr>, pool: Pool, reason: ThreadReason, refused: set<Ptr>,
                         blocks: set<nat>, left: set<nat>)
    requires snapshot != [] && OwnIndices(snapshot, pool)
    requires var reached := Reached(snapshot[..|snapshot| - 1], pool, reason, refused, blocks);
             left == if reason == ThreadAttach then blocks + Indices(reached, pool) else blocks - Indices(reached, pool)
    ensures var p := snapshot[|snapshot| - 1];
            HasTls(pool, p) ==> (pool[p].tls.value in left <==> pool[p].tls.value in blocks)
  {
    var p, init := snapshot[|snapshot| - 1], snapshot[..|snapshot| - 1];
    if HasTls(pool, p) {
      forall q | q in init && HasTls(pool, q) ensures pool[q].tls.value != pool[p].tls.value {
        var i :| 0 <= i < |init| && init[i] == q;
        assert snapshot[i] == q;
      }
    }
  }

  /** Who is called among the modules before the last is decided for each alone. */
  lemma OneMoreReached(snapshot: seq<Ptr>, pool: Pool, reason: ThreadReason, refused: set<Ptr>, blocks: set<nat>)
    requires snapshot != [] && Allocated(snapshot, pool)
    ensures var p, init := snapshot[|snapshot| - 1], snapshot[..|snapshot| - 1];
            var some := Reached(init, pool, reason, refused, blocks);
            var all := Reached(snapshot, pool, reason, refused, blocks);
            var isCalled := !PassedOver(pool[p], reason, p in refused, blocks);
            && Keep(snapshot, all) == Keep(init, some) + (if isCalled then [p] else [])
            && Keep(snapshot, WithEntry(all, pool)) ==
                 Keep(init, WithEntry(some, pool)) + (if isCalled && !pool[p].threadCallsOff then [p] else [])
            && Indices(all, pool) == Indices(some, pool) + (if isCalled then OwnBit(pool[p]) else {})
  {
    hide PassedOver, Keep, Reached, Indices, WithEntry;
    var p, init := snapshot[|snapshot| - 1], snapshot[..|snapshot| - 1];
    var some, all := Reached(init, pool, reason, refused, blocks), Reached(snapshot, pool, reason, refused, blocks);
    ReachedAlone(snapshot, pool, reason, refused, blocks);
    KeepMembersAlike(init, some, all);
    KeepMembersAlike(init, WithEntry(some, pool), WithEntry(all, pool));
    KeepSnoc(init, p, all);
    KeepSnoc(init, p, WithEntry(all, pool));
    assert snapshot == init + [p];
  }

  lemma ReachedAlone(snapshot: seq<Ptr>, pool: Pool, reason: ThreadReason, refused: set<Ptr>, blocks: set<nat>)
    requires snapshot != [] && Allocated(snapshot, pool)
    ensures var p, init := snapshot[|snapshot| - 1], snapshot[..|snapshot| - 1];
            var some := Reached(init, pool, reason, refused, blocks);
            var all := Reached(snapshot, pool, reason, refused, blocks);
            var isCalled := p in pool && !PassedOver(pool[p], reason, p in refused, blocks);
            && all == some + (if isCalled then {p} else {})
            && (forall q :: q in init ==>
                  (q in some <==> q in all) && (q in WithEntry(some, pool) <==> q in WithEntry(all, pool)))
            && (p in all <==> isCalled) && (p in WithEntry(all, pool) <==> isCalled && !pool[p].threadCallsOff)
            && Indices(all, pool) == Indices(some, pool) + (if isCalled then OwnBit(pool[p]) else {})
  {
    hide PassedOver;
    var p, init := snapshot[|snapshot| - 1], snapshot[..|snapshot| - 1];
    assert forall q :: q in snapshot <==> q in init || q == p;
  }

  /** With no block refused, and whenever a thread ends, every module of the snapshot is called, and all
      its blocks are there, or gone. */
  lemma NobodyIsPassedOver(snapshot: seq<Ptr>, pool: Pool, reason: ThreadReason, refused: set<Ptr>,
                           blocks: set<nat>, calls: seq<ThreadCall>, left: set<nat>)
    requires Allocated(snapshot, pool) && CalledInOrder(snapshot, pool, reason, refused, blocks, calls, left)
    requires refused == {} || reason == ThreadDetach
    ensures Notified(calls) == snapshot
    ensures Entered(calls) == Keep(snapshot, WithEntry(Elems(snapshot), pool))
    ensures forall p :: p in snapshot && pool[p].tls.Some? ==> (pool[p].tls.value in left <==> reason == ThreadAttach)
  {
    var reached := Reached(snapshot, pool, reason, refused, blocks);
    assert reached == Elems(snapshot);
    KeepAll(snapshot, reached);
    forall p | p in snapshot && pool[p].tls.Some?
      ensures pool[p].tls.value in Indices(reached, pool)
    {
      assert p in reached;
    }
  }

  // ---------------------------------------------------------------- the attached modules

  lemma {:induction false} AttachedOwnIndices(active: seq<Ptr>, pool: Pool)
    requires Allocated(active, pool) && Distinct(active)
    requires forall p, q :: p in active && q in active && p != q && HasTls(pool, p) && HasTls(pool, q) ==>
               pool[p].tls != pool[q].tls
    ensures OwnIndices(AttachedInOrder(active, pool), pool)
  {
    if active != [] {
      var init, p := active[..|active| - 1], active[|active| - 1];
      AttachedOwnIndices(init, pool);
      AttachedAreListed(init, pool);
      assert p !in init;
    }
  }

  /** The attached modules of a lawful registry are called as stated. */
  lemma AttachedAreCalled(v: View, reason: ThreadReason, refused: set<Ptr>, blocks: set<nat>)
    requires Lawful(v)
    ensures Allocated(v.s.active, v.s.pool)
    ensures var snapshot := AttachedInOrder(v.s.active, v.s.pool);
            var (calls, left) := CallsOf(snapshot, v.s.pool, reason, refused, blocks);
            && Allocated(snapshot, v.s.pool)
            && CalledInOrder(snapshot, v.s.pool, reason, refused, blocks, calls, left)
  {
    hide Inv, LogLaw, Recorded, CallsOf, CalledInOrder;
    InvFacts(v.s);
    AttachedOwnIndices(v.s.active, v.s.pool);
    AttachedAreListed(v.s.active, v.s.pool);
    EachIsCalled(AttachedInOrder(v.s.active, v.s.pool), v.s.pool, reason, refused, blocks);
  }
}
