/** The loader's module table as a value: the ordered list of registered modules, the pool of
    module records behind it, and the references that callers hold.  The laws the loader keeps are
    stated here, together with the reference definition they are measured against: a module stays
    registered exactly while it can be reached from a handle or a pin. */
module ModuleGraph {
  import opened Wrappers

  /** The address of a module record.  Addresses are never reused within one run. */
  type Ptr = nat

  /** LDK_MODULE.  A record with a function table is one of the built-in modules. */
  datatype Module = Module(
    name: string,
    path: string,
    builtin: bool,
    loadCount: int,
    pinned: bool,
    attached: bool,
    resourceOnly: bool,
    threadCallsOff: bool,
    tls: Option<nat>,
    deps: seq<Ptr>)
  {
    /** Only these records have a load count that changes. */
    predicate Counted() { !builtin && !pinned }

    /** The same record up to its load count, and wholly the same when its count does not change. */
    ghost predicate SameButCount(that: Module) {
      && that == this.(loadCount := that.loadCount)
      && (!Counted() ==> that == this)
    }
  }

  type Pool = map<Ptr, Module>

  /** `held` counts every reference that is not an edge of a registered module: client handles,
      entries of dependency lists still under construction or being released, snapshot entries. */
  datatype State = State(active: seq<Ptr>, pool: Pool, held: multiset<Ptr>)

  const MAXLONG := 0x7FFF_FFFF

  // ---------------------------------------------------------------- lists

  function Elems(s: seq<Ptr>): set<Ptr> { set p | p in s }

  ghost predicate Distinct(s: seq<Ptr>) {
    forall i, j :: 0 <= i < j < |s| ==> s[i] != s[j]
  }

  /** The members of `s` that lie in `k`, in the order of `s`. */
  ghost function Keep(s: seq<Ptr>, k: set<Ptr>): (r: seq<Ptr>)
    ensures |r| <= |s|
  {
    if s == [] then []
    else if s[|s| - 1] in k then Keep(s[..|s| - 1], k) + [s[|s| - 1]]
    else Keep(s[..|s| - 1], k)
  }

  lemma {:induction false} KeepMembers(s: seq<Ptr>, k: set<Ptr>)
    ensures forall p :: p in Keep(s, k) <==> p in s && p in k
  {
    if s != [] {
      KeepMembers(s[..|s| - 1], k);
      assert s == s[..|s| - 1] + [s[|s| - 1]];
    }
  }

  lemma KeepAll(s: seq<Ptr>, k: set<Ptr>)
    requires forall p :: p in s ==> p in k
    ensures Keep(s, k) == s
  {
    if s != [] {
      KeepAll(s[..|s| - 1], k);
    }
  }

  lemma KeepSnoc(s: seq<Ptr>, x: Ptr, k: set<Ptr>)
    ensures Keep(s + [x], k) == if x in k then Keep(s, k) + [x] else Keep(s, k)
  {
    assert (s + [x])[..|s + [x]| - 1] == s;
  }

  lemma {:induction false} KeepKeep(s: seq<Ptr>, k: set<Ptr>, k': set<Ptr>)
    ensures Keep(Keep(s, k), k') == Keep(s, k * k')
  {
    if s != [] {
      var init, x := s[..|s| - 1], s[|s| - 1];
      KeepKeep(init, k, k');
      if x in k {
        KeepSnoc(Keep(init, k), x, k');
      }
    }
  }

  lemma {:induction false} KeepConcat(a: seq<Ptr>, b: seq<Ptr>, k: set<Ptr>)
    ensures Keep(a + b, k) == Keep(a, k) + Keep(b, k)
  {
    if b == [] {
      assert a + b == a;
    } else {
      assert (a + b)[..|a + b| - 1] == a + b[..|b| - 1];
      KeepConcat(a, b[..|b| - 1], k);
    }
  }

  function Without(s: seq<Ptr>, i: nat): (r: seq<Ptr>)
    requires i < |s|
  {
    s[..i] + s[i + 1..]
  }

  lemma WithoutElems(s: seq<Ptr>, i: nat)
    requires i < |s| && Distinct(s)
    ensures Elems(Without(s, i)) == Elems(s) - {s[i]}
  {
    var r := Without(s, i);
    forall p | p in s && p != s[i] ensures p in r {
      var j :| 0 <= j < |s| && s[j] == p;
      assert r[if j < i then j else j - 1] == p;
    }
    forall p | p in r ensures p in s && p != s[i] {
      var j :| 0 <= j < |r| && r[j] == p;
      assert s[if j < i then j else j + 1] == p;
    }
  }

  lemma WithoutIsDistinct(s: seq<Ptr>, i: nat)
    requires i < |s| && Distinct(s)
    ensures Distinct(Without(s, i))
  {
    var r := Without(s, i);
    forall j, k | 0 <= j < k < |r| ensures r[j] != r[k] {
      var j', k' := if j < i then j else j + 1, if k < i then k else k + 1;
      assert r[j] == s[j'] && r[k] == s[k'];
    }
  }

  lemma WithoutIsKeep(s: seq<Ptr>, i: nat)
    requires i < |s| && Distinct(s)
    ensures Distinct(Without(s, i))
    ensures Elems(Without(s, i)) == Elems(s) - {s[i]}
    ensures Without(s, i) == Keep(s, Elems(Without(s, i)))
  {
    hide Keep, Distinct;
    var r := Without(s, i);
    WithoutIsDistinct(s, i);
    WithoutElems(s, i);
    assert s[i] !in Elems(r);
    assert s == s[..i] + [s[i]] + s[i + 1..];
    KeepConcat(s[..i] + [s[i]], s[i + 1..], Elems(r));
    KeepSnoc(s[..i], s[i], Elems(r));
    KeepAll(s[..i], Elems(r));
    KeepAll(s[i + 1..], Elems(r));
  }

  /** The references that the entries of a dependency list stand for. */
  ghost function Refs(list: seq<Ptr>): multiset<Ptr> {
    multiset(list)
  }

  /** A list on its way from one place to another, first entry first; `rest` is still held. */
  ghost predicate Split(moved: seq<Ptr>, rest: seq<Ptr>, list: seq<Ptr>, others: multiset<Ptr>, held: multiset<Ptr>) {
    moved + rest == list && held == others + Refs(rest)
  }

  lemma SplitStart(list: seq<Ptr>, others: multiset<Ptr>, held: multiset<Ptr>)
    requires Refs(list) <= held && others == held - Refs(list)
    ensures Split([], list, list, others, held)
  {
  }

  lemma SplitEnd(moved: seq<Ptr>, list: seq<Ptr>, others: multiset<Ptr>, held: multiset<Ptr>)
    requires Split(moved, [], list, others, held)
    ensures moved == list && held == others
  {
  }

  lemma SplitHead(moved: seq<Ptr>, rest: seq<Ptr>, list: seq<Ptr>, others: multiset<Ptr>, held: multiset<Ptr>)
    requires Split(moved, rest, list, others, held) && rest != []
    ensures Split(moved + [rest[0]], rest[1..], list, others, held - multiset{rest[0]})
    ensures rest[0] in list && rest[0] in held
  {
    assert Refs(rest) == multiset{rest[0]} + multiset(rest[1..]) by { assert rest == [rest[0]] + rest[1..]; }
    assert list[|moved|] == rest[0];
  }

  lemma RefsOfNone()
    ensures Refs([]) == multiset{}
  {
  }

  lemma RefsOfLast(list: seq<Ptr>, others: multiset<Ptr>)
    requires list != []
    ensures var last := list[|list| - 1];
            && last in others + Refs(list)
            && others + Refs(list) - multiset{last} == others + Refs(list[..|list| - 1])
  {
    assert list == list[..|list| - 1] + [list[|list| - 1]];
  }

  lemma UpdateTwice(pool: Pool, p: Ptr, m: Module, m': Module)
    ensures pool[p := m][p := m'] == pool[p := m']
    ensures p in pool && m == pool[p] ==> pool[p := m] == pool
  {
  }

  // ---------------------------------------------------------------- edges

  ghost predicate Allocated(active: seq<Ptr>, pool: Pool) {
    forall p :: p in active ==> p in pool
  }

  /** All dependency entries of the listed modules. */
  ghost function Edges(active: seq<Ptr>, pool: Pool): multiset<Ptr>
    requires Allocated(active, pool)
  {
    if active == [] then multiset{}
    else Edges(active[..|active| - 1], pool) + multiset(pool[active[|active| - 1]].deps)
  }

  lemma {:induction false} EdgesFrame(active: seq<Ptr>, pool: Pool, pool': Pool)
    requires Allocated(active, pool) && Allocated(active, pool')
    requires forall p :: p in active ==> pool'[p].deps == pool[p].deps
    ensures Edges(active, pool') == Edges(active, pool)
  {
    if active != [] {
      EdgesFrame(active[..|active| - 1], pool, pool');
    }
  }

  lemma EdgesOfLast(active: seq<Ptr>, pool: Pool)
    requires Allocated(active, pool) && active != []
    ensures Edges(active, pool) == Edges(active[..|active| - 1], pool) + multiset(pool[active[|active| - 1]].deps)
  {
  }

  lemma Swapped(a: multiset<Ptr>, b: multiset<Ptr>, c: multiset<Ptr>)
    ensures a + b + c == a + c + b
  {
  }

  lemma {:induction false} EdgesWithout(active: seq<Ptr>, pool: Pool, i: nat)
    requires Allocated(active, pool) && i < |active|
    ensures Allocated(Without(active, i), pool)
    ensures Edges(active, pool) == Edges(Without(active, i), pool) + multiset(pool[active[i]].deps)
  {
    hide Edges;
    var r, init := Without(active, i), active[..|active| - 1];
    EdgesOfLast(active, pool);
    if i == |active| - 1 {
      assert r == init;
    } else {
      EdgesWithout(init, pool, i);
      EdgesOfLast(r, pool);
      assert r[..|r| - 1] == Without(init, i) && r[|r| - 1] == active[|active| - 1];
      Swapped(Edges(Without(init, i), pool), multiset(pool[active[i]].deps), multiset(pool[r[|r| - 1]].deps));
    }
  }

  /** An edge target is listed as a dependency by some registered module. */
  lemma {:induction false} EdgeSource(active: seq<Ptr>, pool: Pool, p: Ptr) returns (i: nat)
    requires Allocated(active, pool) && p in Edges(active, pool)
    ensures i < |active| && p in pool[active[i]].deps
  {
    i := |active| - 1;
    if p !in pool[active[i]].deps {
      i := EdgeSource(active[..|active| - 1], pool, p);
    }
  }

  lemma {:induction false} EdgeTarget(active: seq<Ptr>, pool: Pool, i: nat, p: Ptr)
    requires Allocated(active, pool) && i < |active| && p in pool[active[i]].deps
    ensures p in Edges(active, pool)
  {
    if i < |active| - 1 {
      EdgeTarget(active[..|active| - 1], pool, i, p);
    }
  }

  // ---------------------------------------------------------------- the law of the table

  /** Every dependency stands earlier in the list than the module that names it. */
  ghost predicate Ordered(active: seq<Ptr>, pool: Pool)
    requires Allocated(active, pool)
  {
    forall i, d :: 0 <= i < |active| && d in pool[active[i]].deps ==> d in active[..i]
  }

  ghost predicate Loadable(s: State, p: Ptr) {
    p in s.active && p in s.pool && !s.pool[p].builtin
  }

  /** The list is a topological order of records that exist; only loadable modules take part. */
  ghost predicate Shape(s: State) {
    && Distinct(s.active)
    && Allocated(s.active, s.pool)
    && Ordered(s.active, s.pool)
    && DepsLoadable(s)
  }

  /** What a module names is loadable, and a built-in module names nothing. */
  ghost predicate DepsOf(s: State, p: Ptr)
    requires p in s.pool
  {
    forall d :: d in s.pool[p].deps ==> Loadable(s, d) && !s.pool[p].builtin
  }

  ghost predicate DepsLoadable(s: State)
    requires Allocated(s.active, s.pool)
  {
    forall p :: p in s.active ==> DepsOf(s, p)
  }

  /** A counted module has exactly as many references as its load count says, and at least one. */
  ghost predicate CountsExact(s: State)
    requires Allocated(s.active, s.pool)
  {
    forall p :: p in s.active && s.pool[p].Counted() ==>
      s.pool[p].loadCount == s.held[p] + Edges(s.active, s.pool)[p] && s.pool[p].loadCount >= 1
  }

  ghost predicate HeldListed(s: State) {
    forall p :: p in s.held ==> Loadable(s, p)
  }

  ghost predicate Inv(s: State) {
    Shape(s) && HeldListed(s) && CountsExact(s)
  }

  /** Some count cannot be raised any more. */
  ghost predicate AtLimit(s: State) {
    exists p :: p in s.active && p in s.pool && s.pool[p].Counted() && s.pool[p].loadCount >= MAXLONG
  }

  // ---------------------------------------------------------------- reachability

  ghost predicate Root(s: State, p: Ptr) {
    p in s.held || (p in s.pool && s.pool[p].pinned && !s.pool[p].builtin)
  }

  /** Consecutive members are linked by dependency entries. */
  ghost predicate Path(pool: Pool, path: seq<Ptr>) {
    && |path| > 0
    && (forall i :: 0 <= i < |path| ==> path[i] in pool)
    && (forall i :: 0 < i < |path| ==> path[i] in pool[path[i - 1]].deps)
  }

  ghost predicate PathTo(s: State, path: seq<Ptr>, p: Ptr) {
    Path(s.pool, path) && Root(s, path[0]) && path[|path| - 1] == p
  }

  ghost predicate Reachable(s: State, p: Ptr) {
    exists path :: PathTo(s, path, p)
  }

  /** No record is allocated outside the list: the state between two calls. */
  ghost predicate Quiet(s: State) {
    s.pool.Keys == Elems(s.active)
  }

  lemma {:induction false} RegisteredIsReachable(s: State, i: nat)
    requires Inv(s) && i < |s.active| && !s.pool[s.active[i]].builtin
    ensures Reachable(s, s.active[i])
    decreases |s.active| - i
  {
    var p := s.active[i];
    if Root(s, p) {
      assert PathTo(s, [p], p);
    } else {
      var j := EdgeSource(s.active, s.pool, p);
      assert p in s.active[..j] && s.active[j] in s.active && Loadable(s, p);
      RegisteredIsReachable(s, j);
      var path :| PathTo(s, path, s.active[j]);
      PathSnoc(s, path, s.active[j], p);
    }
  }

  lemma PathSnoc(s: State, path: seq<Ptr>, q: Ptr, p: Ptr)
    requires PathTo(s, path, q) && p in s.pool && p in s.pool[q].deps
    ensures PathTo(s, path + [p], p)
  {
    var path' := path + [p];
    assert path'[|path'| - 1] == p;
    assert path'[0] == path[0];
  }

  lemma {:induction false} PathStaysRegistered(s: State, path: seq<Ptr>, p: Ptr)
    requires Inv(s) && Quiet(s) && PathTo(s, path, p)
    ensures Loadable(s, p)
  {
    if |path| == 1 {
    } else {
      var q := path[|path| - 2];
      var init := path[..|path| - 1];
      assert PathTo(s, init, q);
      PathStaysRegistered(s, init, q);
    }
  }

  /** Reference counting is exact garbage collection: what is registered and loadable is what a
      mark phase over the dependency entries, started at the handles and the pins, would mark. */
  lemma CountingIsExactCollection(s: State, p: Ptr)
    requires Inv(s) && Quiet(s)
    ensures Loadable(s, p) <==> Reachable(s, p)
  {
    if Loadable(s, p) {
      var i :| 0 <= i < |s.active| && s.active[i] == p;
      RegisteredIsReachable(s, i);
    }
    if Reachable(s, p) {
      var path :| PathTo(s, path, p);
      PathStaysRegistered(s, path, p);
    }
  }

  /** A dependency chain strictly descends the list, so the graph has no cycle. */
  lemma {:induction false} DependenciesAreAcyclic(s: State, path: seq<Ptr>)
    requires Inv(s) && Path(s.pool, path) && |path| > 1 && path[0] in s.active
    ensures path[0] != path[|path| - 1]
    ensures exists i, j :: 0 <= j < i < |s.active| && s.active[i] == path[0] && s.active[j] == path[|path| - 1]
  {
    var q := path[|path| - 2];
    var p := path[|path| - 1];
    var i: int;
    var k: int;
    if |path| == 2 {
      i :| 0 <= i < |s.active| && s.active[i] == path[0];
      k := i;
    } else {
      var init := path[..|path| - 1];
      DependenciesAreAcyclic(s, init);
      i, k :| 0 <= k < i < |s.active| && s.active[i] == path[0] && s.active[k] == q;
    }
    assert p in s.active[..k];
    var j :| 0 <= j < k && s.active[j] == p;
  }

  // ---------------------------------------------------------------- transitions

  /** What releasing references may do: drop unreachable modules and lower counts. */
  ghost predicate Collected(s: State, s': State) {
    && s'.active == Keep(s.active, Elems(s'.active))
    && s'.pool.Keys == s.pool.Keys - (Elems(s.active) - Elems(s'.active))
    && (forall p :: p in s'.pool ==> s.pool[p].SameButCount(s'.pool[p]) && s'.pool[p].loadCount <= s.pool[p].loadCount)
    && (forall p :: p in s'.pool && p !in s.active ==> s'.pool[p] == s.pool[p])
    && (forall p :: p in s.active && p in s.pool && !s.pool[p].Counted() ==> p in s'.active)
  }

  lemma CollectedTransitive(s: State, s': State, s'': State)
    requires Collected(s, s') && Collected(s', s'')
    ensures Collected(s, s'')
  {
    hide Keep;
    assert Elems(s'.active) <= Elems(s.active) by { KeepMembers(s.active, Elems(s'.active)); }
    assert Elems(s''.active) <= Elems(s'.active) by { KeepMembers(s'.active, Elems(s''.active)); }
    assert Elems(s'.active) * Elems(s''.active) == Elems(s''.active);
    KeepKeep(s.active, Elems(s'.active), Elems(s''.active));
  }

  /** What a load may do: append fresh, unpinned modules and raise counts. */
  ghost predicate Grown(s: State, s': State) {
    && s.active <= s'.active
    && s'.pool.Keys == s.pool.Keys + Elems(s'.active[|s.active|..])
    && Elems(s'.active[|s.active|..]) !! s.pool.Keys
    && (forall p :: p in s.pool ==> s.pool[p].SameButCount(s'.pool[p]))
    && (forall p :: p in s'.active[|s.active|..] ==> s'.pool[p].Counted())
  }

  lemma GrownTransitive(s: State, s': State, s'': State)
    requires Grown(s, s') && Grown(s', s'')
    ensures Grown(s, s'')
  {
    var a, b, c := s.active, s'.active[|s.active|..], s''.active[|s'.active|..];
    assert s''.active[|a|..] == b + c;
  }

  /** Whatever is registered in a lawful state survives a collection that keeps its handles. */
  lemma {:induction false} OldModulesSurvive(s: State, s1: State, s2: State, i: nat)
    requires Inv(s) && Grown(s, s1) && Collected(s1, s2) && Inv(s2) && s.held <= s2.held
    requires i < |s.active|
    ensures s.active[i] in s2.active
    decreases |s.active| - i
  {
    var p := s.active[i];
    assert p in s1.active && p in s1.pool;
    if s.pool[p].Counted() && p !in s.held {
      var j := EdgeSource(s.active, s.pool, p);
      assert p in s.active[..j];
      OldModulesSurvive(s, s1, s2, j);
      assert s2.pool[s.active[j]].deps == s.pool[s.active[j]].deps;
    }
  }

  lemma GrowThenCollect(s: State, s1: State, s2: State)
    requires Inv(s) && Quiet(s) && Grown(s, s1) && Collected(s1, s2) && Inv(s2) && s.held <= s2.held
    ensures Grown(s, s2)
  {
    forall p | p in s.active ensures p in s2.active {
      var i :| 0 <= i < |s.active| && s.active[i] == p;
      OldModulesSurvive(s, s1, s2, i);
    }
    KeepPrefix(s.active, s1.active, s2.active);
    GrownAfterCollection(s, s1, s2);
  }

  lemma GrownAfterCollection(s: State, s1: State, s2: State)
    requires Quiet(s) && Grown(s, s1) && Collected(s1, s2)
    requires s.active <= s2.active && s2.active[|s.active|..] == Keep(s1.active[|s.active|..], Elems(s2.active))
    ensures Grown(s, s2)
  {
    hide Keep;
    var new1, new2 := s1.active[|s.active|..], s2.active[|s.active|..];
    ElemsSplit(s.active, s1.active);
    ElemsSplit(s.active, s2.active);
    assert Elems(new2) <= Elems(new1) by { KeepMembers(new1, Elems(s2.active)); }
    KeysAfterCollection(Elems(s.active), Elems(new1), Elems(new2), s.pool.Keys);
    forall p | p in s.pool ensures s.pool[p].SameButCount(s2.pool[p]) {
      assert s1.pool[p].SameButCount(s2.pool[p]);
    }
    forall p | p in new2 ensures s2.pool[p].Counted() {
      assert p in Elems(new2) && p in s1.pool;
    }
  }

  lemma KeysAfterCollection(before: set<Ptr>, new1: set<Ptr>, new2: set<Ptr>, keys: set<Ptr>)
    requires keys == before && new1 !! keys && new2 <= new1
    ensures keys + new1 - ((before + new1) - (before + new2)) == keys + new2
  {
  }

  lemma ElemsSplit(a: seq<Ptr>, b: seq<Ptr>)
    requires a <= b
    ensures Elems(b) == Elems(a) + Elems(b[|a|..])
  {
    assert b == a + b[|a|..];
  }

  lemma KeepPrefix(a: seq<Ptr>, b: seq<Ptr>, c: seq<Ptr>)
    requires a <= b && c == Keep(b, Elems(c)) && Elems(a) <= Elems(c)
    ensures a <= c && c[|a|..] == Keep(b[|a|..], Elems(c))
  {
    assert b == a + b[|a|..];
    KeepConcat(a, b[|a|..], Elems(c));
    assert forall p :: p in a ==> p in Elems(a);
    KeepAll(a, Elems(c));
  }

  /** A lawful state that grew without gaining a reference did not grow at all. */
  lemma NoModuleGained(s: State, s': State)
    requires Inv(s) && Grown(s, s') && Inv(s') && s'.held == s.held
    ensures s'.active == s.active
  {
    if |s'.active| > |s.active| {
      var last := |s'.active| - 1;
      var p := s'.active[last];
      assert p in s'.active[|s.active|..];
      assert p !in s.held;
      var j := EdgeSource(s'.active, s'.pool, p);
      assert false;
    }
  }

  lemma NothingGained(s: State, s': State)
    requires Inv(s) && Quiet(s) && Grown(s, s') && Inv(s') && s'.held == s.held
    ensures s' == s
  {
    NoModuleGained(s, s');
    assert Elems(s'.active[|s.active|..]) == {};
    SameReferencesSameCounts(s, s');
  }

  lemma SameReferencesSameCounts(s: State, s': State)
    requires s'.active == s.active && s'.held == s.held && s'.pool.Keys == s.pool.Keys == Elems(s.active)
    requires forall p :: p in s.pool ==> s.pool[p].SameButCount(s'.pool[p])
    requires CountsExact(s) && CountsExact(s')
    ensures s' == s
  {
    EdgesFrame(s.active, s.pool, s'.pool);
    forall p | p in s.pool ensures s'.pool[p] == s.pool[p] {
      assert p in Elems(s.active);
    }
    assert s'.pool == s.pool;
  }

  // ---------------------------------------------------------------- single steps

  /** LdkpReferenceModuleLocked on one record. */
  function Referenced(m: Module, pin: bool, increment: bool): Module {
    if m.builtin then m
    else
      var m1 := if pin then m.(pinned := true) else m;
      if increment && !m1.pinned && m1.loadCount < MAXLONG then m1.(loadCount := m1.loadCount + 1) else m1
  }

  function AfterReference(s: State, p: Ptr, pin: bool, increment: bool): State
    requires p in s.pool
  {
    State(s.active,
          s.pool[p := Referenced(s.pool[p], pin, increment)],
          if increment && !s.pool[p].builtin then s.held + multiset{p} else s.held)
  }

  /** What a reference does to the record: a pin sets the flag and stays, a count goes up by one unless the
      module is pinned by then or the count is at its largest, and nothing else changes anywhere. */
  lemma ReferenceFields(s: State, p: Ptr, pin: bool, increment: bool)
    requires Loadable(s, p)
    ensures var s' := AfterReference(s, p, pin, increment);
            var m, m' := s.pool[p], s'.pool[p];
            && m'.pinned == (pin || m.pinned)
            && m'.loadCount == (if increment && !pin && !m.pinned && m.loadCount < 0x7FFF_FFFF
                                then m.loadCount + 1 else m.loadCount)
            && m' == m.(pinned := m'.pinned, loadCount := m'.loadCount)
            && s'.active == s.active && s'.pool.Keys == s.pool.Keys
            && (forall q :: q in s.pool && q != p ==> s'.pool[q] == s.pool[q])
            && s'.held == if increment then s.held + multiset{p} else s.held
  {
  }

  ghost predicate Pinned(s: State, p: Ptr) {
    Loadable(s, p) && s.pool[p].pinned
  }

  /** Whatever is pinned stays listed and pinned. */
  ghost predicate PinsKept(s: State, s': State) {
    forall p :: Pinned(s, p) ==> Pinned(s', p)
  }

  lemma CollectedKeepsPins(s: State, s': State)
    requires Collected(s, s')
    ensures PinsKept(s, s')
  {
    forall p | Pinned(s, p)
      ensures Pinned(s', p)
    {
      assert p in s'.active && s.pool[p].SameButCount(s'.pool[p]);
    }
  }

  lemma GrownKeepsPins(s: State, s': State)
    requires Grown(s, s')
    ensures PinsKept(s, s')
  {
    GrownMembers(s, s');
    forall p | Pinned(s, p)
      ensures Pinned(s', p)
    {
      assert s.pool[p].SameButCount(s'.pool[p]);
    }
  }

  lemma ReferenceKeepsRecord(s: State, p: Ptr, pin: bool, increment: bool)
    requires p in s.pool
    ensures var s' := AfterReference(s, p, pin, increment);
            && s'.active == s.active && p in s'.pool && s'.pool[p].builtin == s.pool[p].builtin
            && s'.held == if increment && !s.pool[p].builtin then s.held + multiset{p} else s.held
  {
  }

  lemma ReferenceKeepsPins(s: State, p: Ptr, pin: bool, increment: bool)
    requires p in s.active && p in s.pool
    ensures PinsKept(s, AfterReference(s, p, pin, increment))
    ensures pin && Loadable(s, p) ==> Pinned(AfterReference(s, p, pin, increment), p)
  {
    forall q | Pinned(s, q)
      ensures Pinned(AfterReference(s, p, pin, increment), q)
    {
    }
  }

  lemma ShapeFrame(s: State, s': State)
    requires Shape(s) && s'.active == s.active && s'.pool.Keys == s.pool.Keys
    requires forall p :: p in s.active ==> s'.pool[p].builtin == s.pool[p].builtin && s'.pool[p].deps == s.pool[p].deps
    ensures Shape(s')
  {
    hide Ordered;
    OrderedFrame(s'.active, s.pool, s'.pool);
    forall p, d | p in s'.active && d in s'.pool[p].deps ensures Loadable(s', d) && !s'.pool[p].builtin {
      assert s'.pool[p].deps == s.pool[p].deps && s'.pool[p].builtin == s.pool[p].builtin;
      assert Loadable(s, d);
      assert d in s.active && s'.pool[d].builtin == s.pool[d].builtin;
    }
  }

  lemma HeldFrame(s: State, s': State)
    requires HeldListed(s) && s'.active == s.active && s'.pool.Keys == s.pool.Keys
    requires forall p :: p in s'.held ==> Loadable(s, p)
    requires forall p :: p in s.pool ==> s'.pool[p].builtin == s.pool[p].builtin
    ensures HeldListed(s')
  {
    forall p | p in s'.held ensures Loadable(s', p) {
      assert Loadable(s, p) && p in s'.pool.Keys;
    }
  }

  lemma KeepsEverything(s: State, s': State)
    requires Allocated(s.active, s.pool) && s'.active == s.active && s'.pool.Keys == s.pool.Keys
    requires forall p :: p in s.pool ==>
               s.pool[p].SameButCount(s'.pool[p]) && s'.pool[p].loadCount <= s.pool[p].loadCount
    requires forall p :: p in s.pool && p !in s.active ==> s'.pool[p] == s.pool[p]
    ensures Collected(s, s')
  {
    KeepAll(s.active, Elems(s.active));
  }

  /** Handing out a reference keeps the counts exact unless the saturating increment is hit: exactly
      a counted module whose count already stands at MAXLONG, not pinned by the same call. */
  lemma ReferenceIsExactUnlessSaturated(s: State, p: Ptr, pin: bool, increment: bool)
    requires Inv(s) && p in s.active
    ensures Inv(AfterReference(s, p, pin, increment)) <==>
            !(increment && !pin && s.pool[p].Counted() && s.pool[p].loadCount >= MAXLONG)
  {
    hide Shape, HeldListed, CountsExact, Edges;
    InvFacts(s);
    var s' := AfterReference(s, p, pin, increment);
    ShapeFrame(s, s');
    ReferenceStaysListed(s, p, pin, increment);
    CountsAfterReference(s, p, pin, increment);
  }

  lemma ReferenceStaysListed(s: State, p: Ptr, pin: bool, increment: bool)
    requires Inv(s) && p in s.active
    ensures p in s.pool && HeldListed(AfterReference(s, p, pin, increment))
  {
    hide CountsExact, Edges;
    var s' := AfterReference(s, p, pin, increment);
    forall q | q in s'.held ensures Loadable(s', q) {
      if q != p {
        assert q in s.held && Loadable(s, q);
      }
    }
  }

  lemma CountsAfterReference(s: State, p: Ptr, pin: bool, increment: bool)
    requires Allocated(s.active, s.pool) && CountsExact(s) && p in s.active
    ensures Allocated(s.active, AfterReference(s, p, pin, increment).pool)
    ensures CountsExact(AfterReference(s, p, pin, increment)) <==>
            !(increment && !pin && s.pool[p].Counted() && s.pool[p].loadCount >= MAXLONG)
  {
    hide Edges;
    var s' := AfterReference(s, p, pin, increment);
    EdgesFrame(s.active, s.pool, s'.pool);
    if increment && !pin && s.pool[p].Counted() && s.pool[p].loadCount >= MAXLONG {
      assert s'.pool[p].Counted() && s'.pool[p].loadCount != s'.held[p] + Edges(s'.active, s'.pool)[p];
    } else {
      forall q | q in s'.active && s'.pool[q].Counted()
        ensures s'.pool[q].loadCount == s'.held[q] + Edges(s'.active, s'.pool)[q] && s'.pool[q].loadCount >= 1
      {
        assert s.pool[q].Counted();
      }
    }
  }

  lemma BuiltinReference(s: State, p: Ptr)
    requires p in s.pool
    ensures s.pool[p].builtin ==> AfterReference(s, p, false, true) == s
    ensures var s' := AfterReference(s, p, false, true);
            && s'.active == s.active && p in s'.pool && s'.pool[p].builtin == s.pool[p].builtin
            && s'.held == if s.pool[p].builtin then s.held else s.held + multiset{p}
  {
    assert s.pool[p := s.pool[p]] == s.pool;
  }

  lemma {:induction false} ReferenceIsGrowth(s: State, p: Ptr, increment: bool)
    requires p in s.active && p in s.pool
    ensures Grown(s, AfterReference(s, p, false, increment))
  {
    assert Elems(s.active[|s.active|..]) == {};
  }

  /** LdkUnloadDll on a module that more than one reference keeps. */
  function AfterDecrement(s: State, p: Ptr): State
    requires p in s.pool
  {
    State(s.active, s.pool[p := s.pool[p].(loadCount := s.pool[p].loadCount - 1)], s.held - multiset{p})
  }

  lemma DecrementIsExact(s: State, p: Ptr)
    requires Inv(s) && p in s.held && s.pool[p].Counted() && s.pool[p].loadCount > 1
    ensures Inv(AfterDecrement(s, p)) && Collected(s, AfterDecrement(s, p))
  {
    hide Shape, CountsExact, HeldListed, Keep, Collected;
    InvFacts(s);
    DecrementFrame(s, p);
    ShapeFrame(s, AfterDecrement(s, p));
    DecrementCounts(s, p);
    HeldFrame(s, AfterDecrement(s, p));
    KeepsEverything(s, AfterDecrement(s, p));
  }

  /** One record changes, in its count alone. */
  lemma DecrementFrame(s: State, p: Ptr)
    requires Allocated(s.active, s.pool) && p in s.pool && s.pool[p].Counted()
    ensures var s' := AfterDecrement(s, p);
            && s'.pool.Keys == s.pool.Keys
            && (forall q :: q in s.pool ==>
                  s.pool[q].SameButCount(s'.pool[q]) && s'.pool[q].loadCount <= s.pool[q].loadCount)
            && (forall q :: q in s.pool && q != p ==> s'.pool[q] == s.pool[q])
            && (forall q :: q in s'.held ==> q in s.held)
  {
  }

  lemma DecrementCounts(s: State, p: Ptr)
    requires Allocated(s.active, s.pool) && CountsExact(s)
    requires p in s.active && p in s.held && s.pool[p].Counted() && s.pool[p].loadCount > 1
    ensures Allocated(s.active, AfterDecrement(s, p).pool) && CountsExact(AfterDecrement(s, p))
  {
    hide Edges;
    var s' := AfterDecrement(s, p);
    EdgesFrame(s.active, s.pool, s'.pool);
    forall q | q in s'.active && s'.pool[q].Counted()
      ensures s'.pool[q].loadCount == s'.held[q] + Edges(s'.active, s'.pool)[q] && s'.pool[q].loadCount >= 1
    {
      assert s.pool[q].Counted();
    }
  }

  /** Dropping a handle to a pinned module changes no record. */
  lemma ReleasePinned(s: State, p: Ptr)
    requires Inv(s) && p in s.held && s.pool[p].pinned
    ensures Inv(s.(held := s.held - multiset{p})) && Collected(s, s.(held := s.held - multiset{p}))
  {
    hide Shape, Edges, Keep, Collected;
    var s' := s.(held := s.held - multiset{p});
    InvFacts(s);
    ShapeFrame(s, s');
    KeepsEverything(s, s');
  }

  /** Taking a module off the list and freeing it: its dependency entries become references that
      the releasing loop still holds. */
  ghost function AfterRemoval(s: State, i: nat): State
    requires i < |s.active| && s.active[i] in s.pool
  {
    var p := s.active[i];
    State(Without(s.active, i), s.pool - {p}, s.held[p := 0] + multiset(s.pool[p].deps))
  }

  lemma OrderedWithout(active: seq<Ptr>, pool: Pool, i: nat)
    requires Allocated(active, pool) && Ordered(active, pool) && i < |active| && active[i] !in Edges(active, pool)
    ensures Allocated(Without(active, i), pool) && Ordered(Without(active, i), pool)
  {
    var r := Without(active, i);
    forall j, d | 0 <= j < |r| && d in pool[r[j]].deps ensures d in r[..j] {
      var k := if j < i then j else j + 1;
      assert active[k] == r[j];
      EdgeTarget(active, pool, k, d);
      var l :| 0 <= l < k && active[l] == d;
      assert r[if l < i then l else l - 1] == d;
    }
  }

  lemma EdgesAreLoadable(s: State)
    requires Inv(s)
    ensures forall d :: d in Edges(s.active, s.pool) ==> Loadable(s, d)
  {
    forall d | d in Edges(s.active, s.pool) ensures Loadable(s, d) {
      var j := EdgeSource(s.active, s.pool, d);
      assert s.active[j] in s.active;
    }
  }

  lemma RemovalMembers(s: State, i: nat)
    requires Distinct(s.active) && i < |s.active| && s.active[i] in s.pool
    ensures Distinct(AfterRemoval(s, i).active)
    ensures forall q :: q in AfterRemoval(s, i).active <==> q in s.active && q != s.active[i]
  {
    var s' := AfterRemoval(s, i);
    WithoutIsKeep(s.active, i);
    assert forall q :: q in s'.active <==> q in Elems(s'.active);
  }

  lemma RemovalShape(s: State, i: nat)
    requires Inv(s) && i < |s.active| && s.active[i] !in Edges(s.active, s.pool)
    ensures Shape(AfterRemoval(s, i)) && HeldListed(AfterRemoval(s, i))
  {
    hide CountsExact, Ordered, Edges;
    RemovalMembers(s, i);
    OrderedWithout(s.active, s.pool, i);
    OrderedFrame(AfterRemoval(s, i).active, s.pool, AfterRemoval(s, i).pool);
    RemovalDeps(s, i);
    RemovalHeld(s, i);
  }

  /** Nobody names the module that goes, so what is named stays. */
  lemma RemovalDeps(s: State, i: nat)
    requires Inv(s) && i < |s.active| && s.active[i] !in Edges(s.active, s.pool)
    ensures Allocated(AfterRemoval(s, i).active, AfterRemoval(s, i).pool) && DepsLoadable(AfterRemoval(s, i))
  {
    hide CountsExact, HeldListed, Ordered, Edges;
    var p, s' := s.active[i], AfterRemoval(s, i);
    RemovalMembers(s, i);
    forall q, d | q in s'.active && d in s.pool[q].deps ensures Loadable(s', d) && !s.pool[q].builtin {
      var k :| 0 <= k < |s.active| && s.active[k] == q;
      EdgeTarget(s.active, s.pool, k, d);
      assert DepsOf(s, q) && Loadable(s, d);
    }
  }

  lemma RemovalHeld(s: State, i: nat)
    requires Inv(s) && i < |s.active| && s.active[i] !in Edges(s.active, s.pool)
    ensures HeldListed(AfterRemoval(s, i))
  {
    hide CountsExact, Ordered, Edges;
    var p, s' := s.active[i], AfterRemoval(s, i);
    RemovalMembers(s, i);
    forall d | d in s'.held ensures Loadable(s', d) {
      if d in s.pool[p].deps {
        assert p in s.active && DepsOf(s, p);
        EdgeTarget(s.active, s.pool, i, d);
      }
      assert Loadable(s, d);
    }
  }

  lemma RemovalIsExact(s: State, i: nat)
    requires Inv(s) && i < |s.active| && s.active[i] !in Edges(s.active, s.pool)
    ensures Inv(AfterRemoval(s, i))
  {
    hide Shape, HeldListed, CountsExact, Edges;
    InvFacts(s);
    RemovalShape(s, i);
    RemovalCounts(s, i);
  }

  /** The entries of the module that goes are references in hand from now on. */
  lemma RemovalCounts(s: State, i: nat)
    requires Distinct(s.active) && Allocated(s.active, s.pool) && CountsExact(s) && i < |s.active|
    ensures Allocated(AfterRemoval(s, i).active, AfterRemoval(s, i).pool) && CountsExact(AfterRemoval(s, i))
  {
    hide Edges, Distinct;
    var p, s' := s.active[i], AfterRemoval(s, i);
    RemovalMembers(s, i);
    EdgesWithout(s.active, s.pool, i);
    EdgesFrame(s'.active, s.pool, s'.pool);
    forall q | q in s'.active && s'.pool[q].Counted()
      ensures s'.pool[q].loadCount == s'.held[q] + Edges(s'.active, s'.pool)[q] && s'.pool[q].loadCount >= 1
    {
      assert q in s.active && q != p && s.pool[q].Counted();
    }
  }

  lemma RemovalIsCollection(s: State, i: nat)
    requires Distinct(s.active) && i < |s.active| && s.active[i] in s.pool && s.pool[s.active[i]].Counted()
    ensures Collected(s, AfterRemoval(s, i))
  {
    WithoutIsKeep(s.active, i);
    assert Elems(s.active) - (Elems(s.active) - {s.active[i]}) == {s.active[i]};
  }

  /** LdkRegisterModule followed by LdkpMoveModuleDependencies: the entries of the list under
      construction become edges, and the loading caller holds the one reference counted. */
  ghost function AfterRegistration(s: State, p: Ptr, m: Module): State {
    State(s.active + [p], s.pool[p := m], s.held - multiset(m.deps) + multiset{p})
  }

  lemma RegistrationEdges(s: State, p: Ptr, m: Module)
    requires Allocated(s.active, s.pool) && p !in s.pool
    ensures var s' := AfterRegistration(s, p, m);
            Allocated(s'.active, s'.pool) && Edges(s'.active, s'.pool) == Edges(s.active, s.pool) + multiset(m.deps)
  {
    var s' := AfterRegistration(s, p, m);
    assert s'.active[..|s'.active| - 1] == s.active;
    EdgesFrame(s.active, s.pool, s'.pool);
  }

  lemma RegistrationIsExact(s: State, p: Ptr, m: Module)
    requires Inv(s) && p !in s.pool && m.Counted() && m.loadCount == 1
    requires multiset(m.deps) <= s.held
    ensures Inv(AfterRegistration(s, p, m)) && Grown(s, AfterRegistration(s, p, m))
  {
    assert Allocated(s.active, s.pool) && p !in s.active;
    RegistrationShape(s, p, m);
    FreshIsUnnamed(s, p);
    CountsAfterRegistration(s, p, m);
    RegistrationIsGrowth(s, p, m);
  }

  lemma RegistrationIsGrowth(s: State, p: Ptr, m: Module)
    requires p !in s.pool && m.Counted()
    ensures Grown(s, AfterRegistration(s, p, m))
  {
    assert AfterRegistration(s, p, m).active[|s.active|..] == [p];
  }

  lemma CountsAfterRegistration(s: State, p: Ptr, m: Module)
    requires Allocated(s.active, s.pool) && CountsExact(s) && p !in s.pool && m.loadCount == 1
    requires p !in Edges(s.active, s.pool) && p !in s.held && multiset(m.deps) <= s.held
    ensures Allocated(s.active + [p], s.pool[p := m]) && CountsExact(AfterRegistration(s, p, m))
  {
    RegistrationEdges(s, p, m);
    assert multiset(m.deps)[p] <= s.held[p];
  }

  lemma FreshIsUnnamed(s: State, p: Ptr)
    requires Inv(s) && p !in s.active
    ensures p !in Edges(s.active, s.pool) && p !in s.held
  {
    EdgesAreLoadable(s);
  }

  lemma OrderedSnoc(active: seq<Ptr>, pool: Pool, p: Ptr)
    requires Allocated(active, pool) && Ordered(active, pool) && p in pool
    requires forall d :: d in pool[p].deps ==> d in active
    ensures Ordered(active + [p], pool)
  {
    var r := active + [p];
    forall i, d | 0 <= i < |r| && d in pool[r[i]].deps ensures d in r[..i] {
      assert r[..i] == active[..i];
    }
  }

  lemma RegistrationShape(s: State, p: Ptr, m: Module)
    requires Inv(s) && p !in s.pool && !m.builtin && multiset(m.deps) <= s.held
    ensures Shape(AfterRegistration(s, p, m)) && HeldListed(AfterRegistration(s, p, m))
  {
    hide CountsExact, Edges, Ordered, DepsLoadable, HeldListed;
    var s' := AfterRegistration(s, p, m);
    RegistrationDeps(s, p, m);
    OrderedFrame(s.active, s.pool, s'.pool);
    OrderedSnoc(s.active, s'.pool, p);
    RegistrationHeld(s, p, m);
  }

  lemma RegistrationDeps(s: State, p: Ptr, m: Module)
    requires Inv(s) && p !in s.pool && !m.builtin && multiset(m.deps) <= s.held
    ensures Allocated(AfterRegistration(s, p, m).active, AfterRegistration(s, p, m).pool)
    ensures DepsLoadable(AfterRegistration(s, p, m))
    ensures forall d :: d in m.deps ==> d in s.active
  {
    hide CountsExact, Edges, Ordered;
    var s' := AfterRegistration(s, p, m);
    forall d | d in m.deps ensures Loadable(s, d) {
      assert d in multiset(m.deps);
    }
    forall q, d | q in s'.active && d in s'.pool[q].deps ensures Loadable(s', d) && !s'.pool[q].builtin {
      if q != p {
        assert q in s.active;
      }
      assert Loadable(s, d);
    }
  }

  lemma RegistrationHeld(s: State, p: Ptr, m: Module)
    requires HeldListed(s) && p !in s.pool && !m.builtin
    ensures HeldListed(AfterRegistration(s, p, m))
  {
    forall q | q in AfterRegistration(s, p, m).held ensures Loadable(AfterRegistration(s, p, m), q) {
      assert q == p || Loadable(s, q);
    }
  }

  lemma OrderedFrame(active: seq<Ptr>, pool: Pool, pool': Pool)
    requires Allocated(active, pool) && Ordered(active, pool) && Allocated(active, pool')
    requires forall p :: p in active ==> pool'[p].deps == pool[p].deps
    ensures Ordered(active, pool')
  {
    forall i, d | 0 <= i < |active| && d in pool'[active[i]].deps ensures d in active[..i] {
      assert active[i] in active;
    }
  }

  /** Fields that take no part in counting can be set freely. */
  lemma FlagsAreInert(s: State, p: Ptr, m: Module)
    requires Inv(s) && p in s.pool
    requires m.builtin == s.pool[p].builtin && m.pinned == s.pool[p].pinned
    requires m.loadCount == s.pool[p].loadCount && m.deps == s.pool[p].deps
    ensures Inv(s.(pool := s.pool[p := m]))
  {
    var s' := s.(pool := s.pool[p := m]);
    ShapeFrame(s, s');
    EdgesFrame(s.active, s.pool, s'.pool);
    assert CountsExact(s');
  }

  lemma CollectedMembers(s: State, s': State)
    requires Collected(s, s')
    ensures Elems(s'.active) <= Elems(s.active) && |s'.active| <= |s.active|
    ensures forall p :: p in s'.active ==> p in s.active
  {
    KeepMembers(s.active, Elems(s'.active));
  }

  lemma CollectedQuiet(s: State, s': State)
    requires Quiet(s) && Collected(s, s')
    ensures Quiet(s')
  {
    CollectedMembers(s, s');
  }

  lemma GrownQuiet(s: State, s': State)
    requires Quiet(s) && Grown(s, s')
    ensures Quiet(s')
  {
    ElemsSplit(s.active, s'.active);
  }

  /** A record that is off the list takes no part in the law. */
  lemma OffListRecord(s: State, pool': Pool)
    requires Inv(s) && Allocated(s.active, pool')
    requires forall p :: p in s.active ==> pool'[p] == s.pool[p]
    ensures Inv(s.(pool := pool'))
  {
    var s' := s.(pool := pool');
    OrderedFrame(s.active, s.pool, s'.pool);
    EdgesFrame(s.active, s.pool, s'.pool);
    assert Shape(s') by {
      forall q, d | q in s'.active && d in s'.pool[q].deps ensures Loadable(s', d) && !s'.pool[q].builtin {
        assert Loadable(s, d);
      }
    }
    forall p | p in s'.active && s'.pool[p].Counted()
      ensures s'.pool[p].loadCount == s'.held[p] + Edges(s'.active, s'.pool)[p] && s'.pool[p].loadCount >= 1
    {
      assert s.pool[p].Counted();
    }
    assert HeldListed(s') by {
      forall q | q in s'.held ensures Loadable(s', q) {
        assert Loadable(s, q);
      }
    }
  }

  /** The tail of the list is nobody's dependency. */
  lemma TailIsUnnamed(s: State)
    requires Inv(s) && s.active != []
    ensures s.active[|s.active| - 1] !in Edges(s.active, s.pool)
  {
    var p := s.active[|s.active| - 1];
    if p in Edges(s.active, s.pool) {
      var j := EdgeSource(s.active, s.pool, p);
      assert false;
    }
  }

  lemma CollectedBesideOffListRecord(s: State, s': State, p: Ptr)
    requires Collected(s, s') && p !in s.active
    ensures Collected(s.(pool := s.pool - {p}), s'.(pool := s'.pool - {p}))
  {
  }

  lemma InvFacts(s: State)
    requires Inv(s)
    ensures Distinct(s.active) && Allocated(s.active, s.pool)
    ensures forall p :: p in s.held ==> Loadable(s, p)
  {
  }

  /** The last reference: a counted module whose count is at most one is named by no other. */
  lemma LastReference(s: State, p: Ptr)
    requires Inv(s) && p in s.held && s.pool[p].Counted() && s.pool[p].loadCount <= 1
    ensures s.held[p] == 1 && p !in Edges(s.active, s.pool)
  {
    assert Loadable(s, p);
  }

  /** One entry of the list under construction becomes an edge of the newest module. */
  ghost function AfterMove(s: State, p: Ptr, d: Ptr): State
    requires p in s.pool
  {
    State(s.active, s.pool[p := s.pool[p].(deps := s.pool[p].deps + [d])], s.held - multiset{d})
  }

  lemma MoveIsExact(s: State, p: Ptr, d: Ptr)
    requires Inv(s) && s.active != [] && p == s.active[|s.active| - 1] && p in s.pool && !s.pool[p].builtin
    requires d in s.held && d != p
    ensures Inv(AfterMove(s, p, d))
  {
    hide CountsExact, HeldListed, Edges;
    InvFacts(s);
    assert p in s.active;
    MoveShape(s, p, d);
    MoveHeld(s, p, d);
    MoveEdges(s.active, s.pool, p, d);
    MoveCounts(s, p, d);
  }

  lemma MoveShape(s: State, p: Ptr, d: Ptr)
    requires Shape(s) && s.active != [] && p == s.active[|s.active| - 1] && !s.pool[p].builtin
    requires Loadable(s, d) && d != p
    ensures Shape(AfterMove(s, p, d))
  {
    var s' := AfterMove(s, p, d);
    MoveOrdered(s.active, s.pool, p, d);
    forall q, e | q in s'.active && e in s'.pool[q].deps ensures Loadable(s', e) && !s'.pool[q].builtin {
      assert e != d ==> e in s.pool[q].deps;
      assert Loadable(s, e);
    }
  }

  lemma MoveOrdered(active: seq<Ptr>, pool: Pool, p: Ptr, d: Ptr)
    requires Allocated(active, pool) && Ordered(active, pool) && Distinct(active)
    requires active != [] && p == active[|active| - 1] && d in active && d != p
    ensures Allocated(active, pool[p := pool[p].(deps := pool[p].deps + [d])])
    ensures Ordered(active, pool[p := pool[p].(deps := pool[p].deps + [d])])
  {
    var pool' := pool[p := pool[p].(deps := pool[p].deps + [d])];
    var last := |active| - 1;
    forall i, e | 0 <= i < |active| && e in pool'[active[i]].deps ensures e in active[..i] {
      if e in pool[active[i]].deps {
      } else {
        assert active == active[..last] + [p];
      }
    }
  }

  lemma MoveHeld(s: State, p: Ptr, d: Ptr)
    requires HeldListed(s) && p in s.pool
    ensures HeldListed(AfterMove(s, p, d))
  {
    forall q | q in AfterMove(s, p, d).held ensures Loadable(AfterMove(s, p, d), q) {
      assert Loadable(s, q);
    }
  }

  lemma MoveEdges(active: seq<Ptr>, pool: Pool, p: Ptr, d: Ptr)
    requires Allocated(active, pool) && Distinct(active) && active != [] && p == active[|active| - 1]
    ensures Allocated(active, pool[p := pool[p].(deps := pool[p].deps + [d])])
    ensures Edges(active, pool[p := pool[p].(deps := pool[p].deps + [d])]) == Edges(active, pool) + multiset{d}
  {
    var init := active[..|active| - 1];
    EdgesFrame(init, pool, pool[p := pool[p].(deps := pool[p].deps + [d])]);
  }

  lemma MoveCounts(s: State, p: Ptr, d: Ptr)
    requires Allocated(s.active, s.pool) && CountsExact(s) && p in s.active && d in s.held
    requires Edges(s.active, AfterMove(s, p, d).pool) == Edges(s.active, s.pool) + multiset{d}
    ensures CountsExact(AfterMove(s, p, d))
  {
    hide Edges;
    var s' := AfterMove(s, p, d);
    forall q | q in s'.active && s'.pool[q].Counted()
      ensures s'.pool[q].loadCount == s'.held[q] + Edges(s'.active, s'.pool)[q] && s'.pool[q].loadCount >= 1
    {
      assert s.pool[q].Counted();
    }
  }

  /** A load may still change the modules it has itself added. */
  lemma GrownWithNewRecord(s: State, s': State, p: Ptr, m: Module, held: multiset<Ptr>)
    requires Grown(s, s') && p in s'.pool && p !in s.pool && m.Counted()
    ensures Grown(s, State(s'.active, s'.pool[p := m], held))
  {
  }

  lemma GrownMembers(s: State, s': State)
    requires Grown(s, s')
    ensures forall p :: p in s.active ==> p in s'.active
    ensures forall p :: p in s'.active ==> p in s.active || (p !in s.pool && p in s'.pool && s'.pool[p].Counted())
  {
    assert s'.active == s.active + s'.active[|s.active|..];
    forall p | p in s'.active && p !in s.active ensures p !in s.pool && p in s'.pool && s'.pool[p].Counted() {
      assert p in Elems(s'.active[|s.active|..]);
    }
  }

  /** From `held` with `list` in hand to `held'` with `list'` in hand; `extra` references leaked. */
  ghost predicate Exchanged(held: multiset<Ptr>, list: seq<Ptr>,
                            held': multiset<Ptr>, list': seq<Ptr>, extra: multiset<Ptr>)
  {
    held' == held - Refs(list) + Refs(list') + extra
  }

  lemma ExchangedKeep(held: multiset<Ptr>, list: seq<Ptr>, held': multiset<Ptr>, extra: multiset<Ptr>)
    requires Refs(list) <= held && held' == held + extra
    ensures Exchanged(held, list, held', list, extra)
  {
  }

  /** InsertTailList on a list under construction. */
  function Snoc(list: seq<Ptr>, p: Ptr): (r: seq<Ptr>)
    ensures r != list
  {
    list + [p]
  }

  lemma ExchangedAdd(held: multiset<Ptr>, list: seq<Ptr>, p: Ptr, held': multiset<Ptr>, extra: multiset<Ptr>)
    requires Refs(list) <= held && held' == held + extra + multiset{p}
    ensures Exchanged(held, list, held', Snoc(list, p), extra)
  {
  }

  lemma HeldAfterMove(held: multiset<Ptr>, list: seq<Ptr>, leaked: multiset<Ptr>, p: Ptr)
    ensures held + Refs(list) + leaked + multiset{p} - Refs(list) == held + leaked + multiset{p}
    ensures held + leaked + multiset{p} - multiset{p} == held + leaked
  {
  }

  lemma ExchangedTwice(held: multiset<Ptr>, held': multiset<Ptr>, list': seq<Ptr>, extra: multiset<Ptr>,
                       held'': multiset<Ptr>, list'': seq<Ptr>, extra': multiset<Ptr>)
    requires Exchanged(held, [], held', list', extra) && Exchanged(held', list', held'', list'', extra')
    ensures Exchanged(held, [], held'', list'', extra + extra') && Refs(list'') <= held''
  {
  }
}
