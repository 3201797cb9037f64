/** What surrounds the module table: names, the log of calls into modules, the bitmap of static TLS
    indices, and what every single step of the loader does to them. */
module LoaderLaws {
  import opened Wrappers
  import opened ModuleGraph

  datatype Reason = ProcessAttach | ProcessDetach | Unlisting

  /** A call into a module, with the dependencies it has then; or the removal of its record from the
      list, after which nobody finds it any more. */
  datatype Event = Event(reason: Reason, target: Ptr, deps: seq<Ptr>)

  // ---------------------------------------------------------------- names

  function FoldChar(c: char): char {
    if 'A' <= c <= 'Z' then ((c as int) + 32) as char else c
  }

  function Fold(s: string): string {
    seq(|s|, i requires 0 <= i < |s| => FoldChar(s[i]))
  }

  /** _stricmp(a, b) == 0 */
  predicate SameName(a: string, b: string) { Fold(a) == Fold(b) }

  const UPPER: string := "ABCDEFGHIJKLMNOPQRSTUVWXYZ"
  const LOWER: string := "abcdefghijklmnopqrstuvwxyz"

  /** The same character, or the same letter of the alphabet in both cases. */
  ghost predicate SameLetter(a: char, b: char) {
    a == b || exists k :: 0 <= k < 26 && ((a == UPPER[k] && b == LOWER[k]) || (a == LOWER[k] && b == UPPER[k]))
  }

  lemma FoldedAlike(a: char, b: char)
    ensures FoldChar(a) == FoldChar(b) <==> SameLetter(a, b)
  {
    Alphabet();
    if 'A' <= a <= 'Z' && b == FoldChar(a) {
      assert a == UPPER[a as int - 65] && b == LOWER[a as int - 65];
    }
    if 'A' <= b <= 'Z' && a == FoldChar(b) {
      assert b == UPPER[b as int - 65] && a == LOWER[b as int - 65];
    }
  }

  lemma Alphabet()
    ensures |UPPER| == |LOWER| == 26
    ensures forall k :: 0 <= k < 26 ==> UPPER[k] as int == 65 + k && LOWER[k] as int == 97 + k
  {
  }

  /** Two names are the same if they differ in nothing but the case of letters. */
  lemma SameNameMeans(a: string, b: string)
    ensures SameName(a, b) <==> |a| == |b| && forall i :: 0 <= i < |a| ==> SameLetter(a[i], b[i])
  {
    hide FoldChar, SameLetter;
    assert |Fold(a)| == |a| && |Fold(b)| == |b|;
    forall i | 0 <= i < |a| && i < |b|
      ensures Fold(a)[i] == Fold(b)[i] <==> SameLetter(a[i], b[i])
    {
      FoldedAlike(a[i], b[i]);
    }
    if |a| == |b| && (forall i :: 0 <= i < |a| ==> SameLetter(a[i], b[i])) {
      assert forall i :: 0 <= i < |a| ==> Fold(a)[i] == Fold(b)[i];
    }
  }

  function FirstMatch(active: seq<Ptr>, pool: Pool, name: string, resourceOnly: bool): (r: Option<Ptr>)
    requires forall p :: p in active ==> p in pool
    ensures r.Some? ==> r.value in active && SameName(pool[r.value].name, name)
                        && pool[r.value].resourceOnly == resourceOnly
    ensures r.None? ==> forall p :: p in active && pool[p].resourceOnly == resourceOnly
                                    ==> !SameName(pool[p].name, name)
  {
    if active == [] then None
    else
      var m := pool[active[0]];
      if m.resourceOnly == resourceOnly && SameName(m.name, name) then Some(active[0])
      else
        assert forall p :: p in active <==> p == active[0] || p in active[1..];
        FirstMatch(active[1..], pool, name, resourceOnly)
  }

  /** None before it would do. */
  lemma {:induction false} FirstMatchIsFirst(active: seq<Ptr>, pool: Pool, name: string, resourceOnly: bool, i: nat)
    requires (forall p :: p in active ==> p in pool) && i < |active|
    requires FirstMatch(active, pool, name, resourceOnly) == Some(active[i])
    requires forall j :: 0 <= j < i ==> active[j] != active[i]
    ensures forall j :: 0 <= j < i && pool[active[j]].resourceOnly == resourceOnly ==>
              !SameName(pool[active[j]].name, name)
  {
    if i > 0 {
      assert active[1..][i - 1] == active[i];
      FirstMatchIsFirst(active[1..], pool, name, resourceOnly, i - 1);
      assert forall j :: 1 <= j < i ==> active[j] == active[1..][j - 1];
    }
  }

  /** The first listed module of that name whose resource mode is the one asked for. */
  function Lookup(active: seq<Ptr>, pool: Pool, name: string, resourceOnly: bool): (r: Option<Ptr>)
    requires forall p :: p in active ==> p in pool
    ensures r.Some? ==> r.value in active
  {
    FirstMatch(active, pool, name, resourceOnly)
  }

  /** The first listed module of that NT path that is not kept for its resources only. */
  function LookupPath(active: seq<Ptr>, pool: Pool, path: string): (r: Option<Ptr>)
    requires forall p :: p in active ==> p in pool
    ensures r.Some? ==> r.value in active && SameName(pool[r.value].path, path) && !pool[r.value].resourceOnly
    ensures r.None? ==> forall p :: p in active && !pool[p].resourceOnly ==> !SameName(pool[p].path, path)
  {
    if active == [] then None
    else
      var m := pool[active[0]];
      if !m.resourceOnly && SameName(m.path, path) then Some(active[0])
      else
        assert forall p :: p in active <==> p == active[0] || p in active[1..];
        LookupPath(active[1..], pool, path)
  }

  lemma {:induction false} LookupPathIsFirst(active: seq<Ptr>, pool: Pool, path: string, i: nat)
    requires (forall p :: p in active ==> p in pool) && i < |active|
    requires LookupPath(active, pool, path) == Some(active[i]) && forall j :: 0 <= j < i ==> active[j] != active[i]
    ensures forall j :: 0 <= j < i && !pool[active[j]].resourceOnly ==> !SameName(pool[active[j]].path, path)
  {
    if i > 0 {
      assert active[1..][i - 1] == active[i];
      LookupPathIsFirst(active[1..], pool, path, i - 1);
      assert forall j :: 1 <= j < i ==> active[j] == active[1..][j - 1];
    }
  }

  function IndexOf(s: seq<Ptr>, p: Ptr): (i: nat)
    requires p in s
    ensures i < |s| && s[i] == p
  {
    if s[0] == p then 0 else 1 + IndexOf(s[1..], p)
  }

  // ---------------------------------------------------------------- events and static TLS bits

  function Called(log: seq<Event>, reason: Reason): set<Ptr> {
    set e | e in log && e.reason == reason :: e.target
  }

  ghost function AttachedNow(active: seq<Ptr>, pool: Pool): set<Ptr> {
    set p | p in active && p in pool && pool[p].attached
  }

  /** None of these has been detached or taken off the list. */
  ghost predicate Standing(before: seq<Event>, deps: seq<Ptr>) {
    forall d :: d in deps ==> d !in Called(before, ProcessDetach) && d !in Called(before, Unlisting)
  }

  /** What may come next.  A module is attached once, after all it depends on and while that is still
      listed.  It is detached once, with the dependencies it was attached with, while these are still
      listed and after everything that depends on it. */
  ghost predicate Legal(before: seq<Event>, e: Event) {
    match e.reason
    case ProcessAttach =>
      && (forall p :: p in Called(before, ProcessAttach) ==> p < e.target)
      && (forall d :: d in e.deps ==> d < e.target)
      && Standing(before, e.deps)
    case ProcessDetach =>
      && e.target !in Called(before, ProcessDetach)
      && Event(ProcessAttach, e.target, e.deps) in before
      && Standing(before, e.deps)
      && (forall a :: a in before && a.reason == ProcessAttach && e.target in a.deps ==>
            a.target in Called(before, ProcessDetach))
    case Unlisting => e.target !in Called(before, Unlisting)
  }

  /** Every event was legal when it came; `live` is attached and not detached. */
  ghost predicate LogLaw(log: seq<Event>, live: set<Ptr>, next: Ptr) {
    && (forall j :: 0 <= j < |log| ==> Legal(log[..j], log[j]))
    && (forall e :: e in log ==> e.target < next)
    && Called(log, ProcessAttach) - Called(log, ProcessDetach) == live
  }

  /** How the log and the table belong together: what is listed has neither been taken off the list nor
      detached, and what is attached is on record with the dependencies it has. */
  ghost predicate Recorded(log: seq<Event>, active: seq<Ptr>, pool: Pool) {
    && (forall p :: p in active ==> p !in Called(log, Unlisting) && p !in Called(log, ProcessDetach))
    && (forall p :: p in active && p in pool && pool[p].attached ==> Event(ProcessAttach, p, pool[p].deps) in log)
  }

  lemma RecordedFrame(log: seq<Event>, active: seq<Ptr>, pool: Pool, pool': Pool)
    requires Recorded(log, active, pool) && Allocated(active, pool)
    requires forall p :: p in active && p in pool' && pool'[p].attached ==>
               pool[p].attached && pool'[p].deps == pool[p].deps
    ensures Recorded(log, active, pool')
  {
  }

  lemma LogNext(log: seq<Event>, live: set<Ptr>, next: Ptr, e: Event)
    requires LogLaw(log, live, next) && Legal(log, e) && e.target < next
    requires e.reason == ProcessDetach ==> e.target in live
    ensures var live' := match e.reason
                         case ProcessAttach => live + {e.target}
                         case ProcessDetach => live - {e.target}
                         case Unlisting => live;
            LogLaw(log + [e], live', next)
    ensures forall r :: Called(log + [e], r) == Called(log, r) + (if e.reason == r then {e.target} else {})
  {
    hide Legal, Called;
    var log' := log + [e];
    forall r ensures Called(log', r) == Called(log, r) + (if e.reason == r then {e.target} else {}) {
      CalledSnoc(log, e, r);
    }
    forall j | 0 <= j < |log'| ensures Legal(log'[..j], log'[j]) {
      assert log'[..j] == if j < |log| then log[..j] else log;
    }
    if e.reason == ProcessAttach {
      AttachIsFirst(log, live, next, e);
    }
  }

  lemma AttachIsFirst(log: seq<Event>, live: set<Ptr>, next: Ptr, e: Event)
    requires LogLaw(log, live, next) && Legal(log, e) && e.reason == ProcessAttach
    ensures e.target !in Called(log, ProcessAttach) && e.target !in Called(log, ProcessDetach)
  {
    DetachesFollowAttaches(log, live, next);
  }

  lemma DetachesFollowAttaches(log: seq<Event>, live: set<Ptr>, next: Ptr)
    requires LogLaw(log, live, next)
    ensures Called(log, ProcessDetach) <= Called(log, ProcessAttach)
  {
    forall p | p in Called(log, ProcessDetach) ensures p in Called(log, ProcessAttach) {
      var j :| 0 <= j < |log| && log[j].reason == ProcessDetach && log[j].target == p;
      assert Legal(log[..j], log[j]);
      assert Event(ProcessAttach, p, log[j].deps) in log;
    }
  }

  lemma CalledSnoc(log: seq<Event>, e: Event, reason: Reason)
    ensures Called(log + [e], reason) == Called(log, reason) + (if e.reason == reason then {e.target} else {})
  {
    assert forall x :: x in log + [e] <==> x in log || x == e;
    if e.reason == reason {
      assert e in log + [e];
    }
  }

  /** A module has one attach on record. */
  lemma AttachedOnce(log: seq<Event>, live: set<Ptr>, next: Ptr, a: Event, a': Event)
    requires LogLaw(log, live, next) && a in log && a' in log
    requires a.reason == a'.reason == ProcessAttach && a.target == a'.target
    ensures a == a'
  {
    var i: nat :| i < |log| && log[i] == a;
    var j: nat :| j < |log| && log[j] == a';
    assert Legal(log[..i], log[i]) && Legal(log[..j], log[j]);
    LaterIsAnother(log, i, j);
    LaterIsAnother(log, j, i);
  }

  lemma LaterIsAnother(log: seq<Event>, i: nat, j: nat)
    requires i < |log| && j < |log| && log[i].reason == log[j].reason == ProcessAttach && Legal(log[..j], log[j])
    ensures i < j ==> log[i].target < log[j].target
  {
    if i < j {
      EarlierCall(log, i, j);
    }
  }

  lemma EarlierCall(log: seq<Event>, i: nat, j: nat)
    requires i < j <= |log|
    ensures log[i].target in Called(log[..j], log[i].reason)
  {
    assert log[..j][i] == log[i];
  }

  /** Detaching undoes the order of attaching, in every log: where `p` was attached with `d` among its
      dependencies, `d` was attached before it, and `d` is detached only after it. */
  lemma InitialisationIsUndone(log: seq<Event>, live: set<Ptr>, next: Ptr, i: nat, j: nat)
    requires LogLaw(log, live, next) && i < |log| && j < |log|
    requires log[i].reason == ProcessAttach && log[j].target in log[i].deps
    ensures log[j].reason == ProcessAttach ==> j < i
    ensures log[j].reason == ProcessDetach ==> i < j && log[i].target in Called(log[..j], ProcessDetach)
  {
    assert Legal(log[..i], log[i]) && Legal(log[..j], log[j]);
    if i < j {
      assert log[..j][i] == log[i];
      EarlierCall(log, i, j);
    } else if j < i {
      EarlierCall(log, j, i);
    }
  }

  /** Whenever `d` is detached, `p` has been detached before. */
  ghost predicate DetachedFirst(log: seq<Event>, p: Ptr, d: Ptr) {
    forall j :: 0 <= j < |log| && log[j].reason == ProcessDetach && log[j].target == d ==>
      p in Called(log[..j], ProcessDetach)
  }

  lemma DependantsGoFirst(log: seq<Event>, live: set<Ptr>, next: Ptr, p: Ptr, deps: seq<Ptr>)
    requires LogLaw(log, live, next) && Event(ProcessAttach, p, deps) in log
    ensures forall d :: d in deps ==> DetachedFirst(log, p, d)
  {
    var i :| 0 <= i < |log| && log[i] == Event(ProcessAttach, p, deps);
    forall d, j | d in deps && 0 <= j < |log| && log[j].reason == ProcessDetach && log[j].target == d
      ensures p in Called(log[..j], ProcessDetach)
    {
      InitialisationIsUndone(log, live, next, i, j);
    }
  }

  ghost function OwnedBits(active: seq<Ptr>, pool: Pool): set<nat> {
    set p | p in active && p in pool && pool[p].tls.Some? :: pool[p].tls.value
  }

  function OwnBit(m: Module): set<nat> {
    if m.tls.Some? then {m.tls.value} else {}
  }

  predicate HasTls(pool: Pool, p: Ptr) {
    p in pool && pool[p].tls.Some?
  }

  /** The bitmap holds the bits of TlsAlloc clients and one bit for each module with static TLS;
      `owned` are the bits of modules. */
  ghost predicate TlsLaw(active: seq<Ptr>, pool: Pool, bits: set<nat>, owned: set<nat>, clients: set<nat>) {
    && bits == clients + owned
    && clients !! owned
    && (forall p, q :: (p in active && q in active && p != q && HasTls(pool, p) && HasTls(pool, q)) ==>
          pool[p].tls != pool[q].tls)
  }

  /** Records that agree in these fields agree in what they own. */
  lemma LawsIgnoreCounts(active: seq<Ptr>, pool: Pool, pool': Pool)
    requires Allocated(active, pool) && Allocated(active, pool')
    requires forall p :: p in active ==> pool'[p].attached == pool[p].attached && pool'[p].tls == pool[p].tls
    ensures OwnedBits(active, pool') == OwnedBits(active, pool)
    ensures AttachedNow(active, pool') == AttachedNow(active, pool)
  {
  }

  lemma LawsOfRemoval(active: seq<Ptr>, pool: Pool, i: nat)
    requires Allocated(active, pool) && Distinct(active) && i < |active|
    ensures var p, r := active[i], Without(active, i);
            && OwnedBits(active, pool) == OwnedBits(r, pool) + OwnBit(pool[p])
            && AttachedNow(active, pool) == AttachedNow(r, pool) + (if pool[p].attached then {p} else {})
            && Allocated(r, pool)
  {
    var p, r := active[i], Without(active, i);
    WithoutElems(active, i);
    assert forall q :: q in active <==> q in Elems(active);
    assert forall q :: q in r <==> q in Elems(r);
    forall b | b in OwnedBits(active, pool) ensures b in OwnedBits(r, pool) + OwnBit(pool[p]) {
      var q :| q in active && pool[q].tls == Some(b);
      if q != p {
        assert q in r;
      }
    }
    assert p in active;
  }

  // ---------------------------------------------------------------- the loader as a value

  /** Everything the registry keeps.  `clients` are the TLS indices that TlsAlloc handed out, `names`
      the names a module can be registered under. */
  datatype View = View(
    s: State,
    next: Ptr,
    bits: set<nat>,
    log: seq<Event>,
    clients: set<nat>,
    names: set<string>)

  ghost predicate RecordsOk(v: View) {
    && (forall p :: p in v.s.pool ==> p < v.next)
    && (forall p :: p in v.s.active && p in v.s.pool ==> v.s.pool[p].name in v.names)
    && (forall p :: p in v.s.pool && v.s.pool[p].builtin ==>
          !v.s.pool[p].attached && v.s.pool[p].tls == None && v.s.pool[p].deps == [])
  }

  /** The laws at every step. */
  ghost predicate Lawful(v: View) {
    && Inv(v.s)
    && RecordsOk(v)
    && TlsLaw(v.s.active, v.s.pool, v.bits, OwnedBits(v.s.active, v.s.pool), v.clients)
    && LogLaw(v.log, AttachedNow(v.s.active, v.s.pool), v.next)
    && Recorded(v.log, v.s.active, v.s.pool)
  }

  function Live(p: Ptr, m: Module): set<Ptr> {
    if m.attached then {p} else {}
  }

  /** A module just taken off the list, with everything it owns still in place. */
  ghost predicate Unlinked(v: View, p: Ptr) {
    && p in v.s.pool && p !in v.s.active
    && Inv(v.s)
    && RecordsOk(v)
    && multiset(v.s.pool[p].deps) <= v.s.held
    && TlsLaw(v.s.active, v.s.pool, v.bits, OwnedBits(v.s.active, v.s.pool) + OwnBit(v.s.pool[p]), v.clients)
    && OwnedBits(v.s.active, v.s.pool) !! OwnBit(v.s.pool[p])
    && LogLaw(v.log, AttachedNow(v.s.active, v.s.pool) + Live(p, v.s.pool[p]), v.next)
    && Recorded(v.log, v.s.active, v.s.pool)
    && (v.s.pool[p].attached ==> Event(ProcessAttach, p, v.s.pool[p].deps) in v.log)
  }

  lemma UnlinkedFacts(v: View, p: Ptr)
    requires Unlinked(v, p)
    ensures p in v.s.pool && p !in v.s.active && Refs(v.s.pool[p].deps) <= v.s.held
  {
  }

  /** The history is only extended, and no module is attached by a release. */
  ghost predicate SameHistory(v: View, v': View) {
    && v'.next == v.next && v'.clients == v.clients && v'.names == v.names
    && v.log <= v'.log
    && Called(v'.log, ProcessAttach) == Called(v.log, ProcessAttach)
  }

  /** Taking the i-th module off the list, which the log remembers: its entries pass to the releasing loop. */
  ghost function Unlink(v: View, i: nat, m: Module): View
    requires i < |v.s.active|
  {
    var p := v.s.active[i];
    v.(s := State(Without(v.s.active, i), v.s.pool[p := m], v.s.held[p := 0] + multiset(m.deps)),
       log := v.log + [Event(Unlisting, p, [])])
  }

  lemma UnlinkIsLawful(v: View, i: nat, m: Module)
    requires Lawful(v) && i < |v.s.active| && v.s.active[i] !in Edges(v.s.active, v.s.pool)
    requires m == v.s.pool[v.s.active[i]].(loadCount := m.loadCount)
    ensures Unlinked(Unlink(v, i, m), v.s.active[i])
  {
    hide Inv, Edges, TlsLaw, LogLaw, OwnedBits, AttachedNow, RecordsOk;
    var p, v' := v.s.active[i], Unlink(v, i, m);
    InvFacts(v.s);
    RemovalIsExact(v.s, i);
    WithoutElems(v.s.active, i);
    assert p !in v'.s.active by { assert p !in Elems(v'.s.active); }
    assert forall q :: q in v'.s.active ==> q in v.s.active by {
      assert forall q :: q in v'.s.active ==> q in Elems(v'.s.active);
    }
    OffListRecord(AfterRemoval(v.s, i), v'.s.pool);
    LawsOfRemoval(v.s.active, v.s.pool, i);
    LawsIgnoreCounts(v'.s.active, v.s.pool, v'.s.pool);
    UnlinkTls(v, i, m);
    UnlinkRecords(v, i, m);
    UnlinkLog(v, i, m);
  }

  lemma UnlinkLog(v: View, i: nat, m: Module)
    requires Lawful(v) && i < |v.s.active| && v.s.active[i] in v.s.pool
    requires m == v.s.pool[v.s.active[i]].(loadCount := m.loadCount)
    ensures var v', p := Unlink(v, i, m), v.s.active[i];
            && LogLaw(v'.log, AttachedNow(v'.s.active, v'.s.pool) + Live(p, m), v.next)
            && Recorded(v'.log, v'.s.active, v'.s.pool)
            && (m.attached ==> Event(ProcessAttach, p, m.deps) in v'.log)
  {
    hide Inv, TlsLaw, LogLaw, Called, OwnedBits;
    var v', p := Unlink(v, i, m), v.s.active[i];
    var e := Event(Unlisting, p, []);
    InvFacts(v.s);
    WithoutElems(v.s.active, i);
    assert forall q :: q in v'.s.active <==> q in Elems(v'.s.active);
    assert forall q :: q in v.s.active <==> q in Elems(v.s.active);
    assert p in v.s.active;
    LawsOfRemoval(v.s.active, v.s.pool, i);
    LawsIgnoreCounts(v'.s.active, v.s.pool, v'.s.pool);
    LogNext(v.log, AttachedNow(v.s.active, v.s.pool), v.next, e);
    forall x | x in v.log ensures x in v'.log {
    }
  }

  lemma UnlinkRecords(v: View, i: nat, m: Module)
    requires RecordsOk(v) && i < |v.s.active| && v.s.active[i] in v.s.pool
    requires m == v.s.pool[v.s.active[i]].(loadCount := m.loadCount)
    ensures RecordsOk(Unlink(v, i, m))
  {
    forall q | q in Unlink(v, i, m).s.active ensures q in v.s.active {
    }
  }

  lemma UnlinkTls(v: View, i: nat, m: Module)
    requires Distinct(v.s.active) && Allocated(v.s.active, v.s.pool) && i < |v.s.active|
    requires m == v.s.pool[v.s.active[i]].(loadCount := m.loadCount)
    requires TlsLaw(v.s.active, v.s.pool, v.bits, OwnedBits(v.s.active, v.s.pool), v.clients)
    ensures var v', p := Unlink(v, i, m), v.s.active[i];
            && TlsLaw(v'.s.active, v'.s.pool, v.bits, OwnedBits(v'.s.active, v'.s.pool) + OwnBit(m), v.clients)
            && OwnedBits(v'.s.active, v'.s.pool) !! OwnBit(m)
  {
    var v', p := Unlink(v, i, m), v.s.active[i];
    LawsOfRemoval(v.s.active, v.s.pool, i);
    LawsIgnoreCounts(v'.s.active, v.s.pool, v'.s.pool);
    WithoutElems(v.s.active, i);
    assert forall q :: q in v'.s.active <==> q in Elems(v'.s.active);
    assert forall q :: q in v.s.active <==> q in Elems(v.s.active);
  }

  /** DLL_PROCESS_DETACH */
  function Detach(v: View, p: Ptr): View
    requires p in v.s.pool
  {
    if v.s.pool[p].attached
    then v.(log := v.log + [Event(ProcessDetach, p, v.s.pool[p].deps)])
    else v
  }

  /** Giving back the TLS index. */
  function ClearTls(v: View, p: Ptr): View
    requires p in v.s.pool
  {
    v.(bits := v.bits - OwnBit(v.s.pool[p]), s := v.s.(pool := v.s.pool[p := v.s.pool[p].(tls := None)]))
  }

  lemma ClearedFacts(v: View, p: Ptr)
    requires p in v.s.pool
    ensures p in Detach(v, p).s.pool
    ensures var u := ClearTls(Detach(v, p), p);
            && u.bits <= v.bits && u.log == Detach(v, p).log && v.log <= u.log && u.s.held == v.s.held
            && u.s.active == v.s.active && p in u.s.pool
    ensures v.s.pool[p].attached ==> Detach(v, p).log == v.log + [Event(ProcessDetach, p, v.s.pool[p].deps)]
  {
  }

  lemma DetachThenClear(v: View, p: Ptr)
    requires Unlinked(v, p) && !v.s.pool[p].builtin
    ensures Lawful(ClearTls(Detach(v, p), p)) && SameHistory(v, ClearTls(Detach(v, p), p))
  {
    hide Inv, TlsLaw, LogLaw, OwnedBits, AttachedNow, Called, Recorded, RecordsOk;
    var v' := ClearTls(Detach(v, p), p);
    InvFacts(v.s);
    DetachKeepsHistory(v, p);
    ClearTlsKeepsTable(Detach(v, p), p);
    LawsIgnoreCounts(v.s.active, v.s.pool, v'.s.pool);
    ClearTlsLaw(v, p);
    DetachLaw(v, p);
    RecordedFrame(v'.log, v.s.active, v.s.pool, v'.s.pool);
  }

  lemma ClearTlsKeepsTable(v: View, p: Ptr)
    requires Inv(v.s) && RecordsOk(v) && p in v.s.pool && p !in v.s.active && !v.s.pool[p].builtin
    ensures Inv(ClearTls(v, p).s) && RecordsOk(ClearTls(v, p)) && Allocated(v.s.active, ClearTls(v, p).s.pool)
    ensures forall q :: q in v.s.active ==> ClearTls(v, p).s.pool[q] == v.s.pool[q]
  {
    hide Inv;
    InvFacts(v.s);
    OffListRecord(v.s, ClearTls(v, p).s.pool);
  }

  lemma DetachKeepsHistory(v: View, p: Ptr)
    requires p in v.s.pool
    ensures var d := Detach(v, p); d.next == v.next && d.clients == v.clients && d.names == v.names
                                   && d.bits == v.bits && d.s == v.s && v.log <= d.log
                                   && (RecordsOk(v) ==> RecordsOk(d))
  {
  }

  lemma ClearTlsLaw(v: View, p: Ptr)
    requires p in v.s.pool && p !in v.s.active && OwnedBits(v.s.active, v.s.pool) !! OwnBit(v.s.pool[p])
    requires TlsLaw(v.s.active, v.s.pool, v.bits, OwnedBits(v.s.active, v.s.pool) + OwnBit(v.s.pool[p]), v.clients)
    ensures var v' := ClearTls(v, p);
            TlsLaw(v.s.active, v'.s.pool, v'.bits, OwnedBits(v.s.active, v.s.pool), v.clients)
  {
  }

  /** An unlinked module may be detached now: its dependencies are listed, its dependants are gone. */
  lemma DetachIsLegal(v: View, p: Ptr)
    requires Unlinked(v, p) && v.s.pool[p].attached
    ensures Legal(v.log, Event(ProcessDetach, p, v.s.pool[p].deps))
  {
    hide Called, TlsLaw, Edges, CountsExact;
    var m, live := v.s.pool[p], AttachedNow(v.s.active, v.s.pool) + {p};
    InvFacts(v.s);
    assert live == AttachedNow(v.s.active, v.s.pool) + Live(p, m);
    forall d | d in m.deps ensures d !in Called(v.log, ProcessDetach) && d !in Called(v.log, Unlisting) {
      assert d in multiset(m.deps);
      assert d in v.s.held && Loadable(v.s, d);
    }
    forall a | a in v.log && a.reason == ProcessAttach && p in a.deps
      ensures a.target in Called(v.log, ProcessDetach)
    {
      DependantIsDetached(v, p, live, a);
    }
  }

  lemma DependantIsDetached(v: View, p: Ptr, live: set<Ptr>, a: Event)
    requires Inv(v.s) && p !in v.s.active && LogLaw(v.log, live, v.next) && Recorded(v.log, v.s.active, v.s.pool)
    requires live == AttachedNow(v.s.active, v.s.pool) + {p}
    requires a in v.log && a.reason == ProcessAttach && p in a.deps
    ensures a.target in Called(v.log, ProcessDetach)
  {
    hide HeldListed, CountsExact, Edges;
    var q := a.target;
    var j :| 0 <= j < |v.log| && v.log[j] == a;
    assert Legal(v.log[..j], a);
    if q !in Called(v.log, ProcessDetach) {
      assert q in Called(v.log, ProcessAttach);
      assert q in live && q != p;
      AttachedOnce(v.log, live, v.next, a, Event(ProcessAttach, q, v.s.pool[q].deps));
    }
  }

  lemma DetachLaw(v: View, p: Ptr)
    requires Unlinked(v, p)
    ensures LogLaw(Detach(v, p).log, AttachedNow(v.s.active, v.s.pool), v.next)
    ensures Recorded(Detach(v, p).log, v.s.active, v.s.pool)
    ensures Called(Detach(v, p).log, ProcessAttach) == Called(v.log, ProcessAttach)
  {
    hide Inv, TlsLaw, LogLaw, Legal, Called;
    InvFacts(v.s);
    var m, live := v.s.pool[p], AttachedNow(v.s.active, v.s.pool);
    assert p !in live;
    assert live + {p} - {p} == live;
    if m.attached {
      var e := Event(ProcessDetach, p, m.deps);
      DetachIsLegal(v, p);
      assert v.s.pool[p].attached ==> live + Live(p, m) == live + {p};
      LogNext(v.log, live + {p}, v.next, e);
      forall x | x in v.log ensures x in Detach(v, p).log {
      }
    } else {
      assert live + Live(p, m) == live;
    }
  }

  /** The record of an unloaded module goes back to the pool. */
  function Free(v: View, p: Ptr): View {
    v.(s := v.s.(pool := v.s.pool - {p}))
  }

  lemma FreeIsLawful(v: View, p: Ptr)
    requires Lawful(v) && p !in v.s.active
    ensures Lawful(Free(v, p))
  {
    hide Inv, TlsLaw, LogLaw;
    InvFacts(v.s);
    OffListRecord(v.s, v.s.pool - {p});
    LawsIgnoreCounts(v.s.active, v.s.pool, v.s.pool - {p});
    TlsFrame(v.s.active, v.s.pool, v.s.pool - {p}, v.bits, OwnedBits(v.s.active, v.s.pool), v.clients);
    RecordedFrame(v.log, v.s.active, v.s.pool, v.s.pool - {p});
  }

  lemma TlsFrame(active: seq<Ptr>, pool: Pool, pool': Pool, bits: set<nat>, owned: set<nat>, clients: set<nat>)
    requires TlsLaw(active, pool, bits, owned, clients)
    requires Allocated(active, pool) && Allocated(active, pool')
    requires forall p :: p in active ==> pool'[p].tls == pool[p].tls
    ensures TlsLaw(active, pool', bits, owned, clients)
  {
  }

  /** A step that only changes counts, pins, references and whether thread calls are made. */
  lemma CountStepIsLawful(v: View, s': State)
    requires Lawful(v) && Inv(s') && s'.active == v.s.active && s'.pool.Keys == v.s.pool.Keys
    requires forall p :: p in s'.pool ==>
               s'.pool[p] == v.s.pool[p].(loadCount := s'.pool[p].loadCount, pinned := s'.pool[p].pinned,
                                          threadCallsOff := s'.pool[p].threadCallsOff)
    ensures Lawful(v.(s := s')) && SameHistory(v, v.(s := s'))
  {
    hide Inv, TlsLaw, LogLaw;
    InvFacts(v.s);
    LawsIgnoreCounts(v.s.active, v.s.pool, s'.pool);
    TlsFrame(v.s.active, v.s.pool, s'.pool, v.bits, OwnedBits(v.s.active, v.s.pool), v.clients);
    RecordedFrame(v.log, v.s.active, v.s.pool, s'.pool);
  }

  lemma DecrementStep(v: View, p: Ptr)
    requires Lawful(v) && p in v.s.held && p in v.s.pool && v.s.pool[p].Counted() && v.s.pool[p].loadCount > 1
    ensures var v' := v.(s := AfterDecrement(v.s, p));
            Lawful(v') && SameHistory(v, v') && Collected(v.s, v'.s)
  {
    hide Inv, Lawful, Edges, Keep, Collected;
    LawfulFacts(v);
    DecrementIsExact(v.s, p);
    CountStepIsLawful(v, AfterDecrement(v.s, p));
  }

  lemma PinnedStep(v: View, p: Ptr)
    requires Lawful(v) && p in v.s.held && p in v.s.pool && v.s.pool[p].pinned
    ensures var v' := v.(s := v.s.(held := v.s.held - multiset{p}));
            Lawful(v') && SameHistory(v, v') && Collected(v.s, v'.s)
  {
    hide Inv, Lawful, Edges, Keep, Collected;
    LawfulFacts(v);
    ReleasePinned(v.s, p);
    CountStepIsLawful(v, v.s.(held := v.s.held - multiset{p}));
  }

  lemma NoStep(v: View)
    requires Lawful(v)
    ensures SameHistory(v, v) && Collected(v.s, v.s)
  {
    hide Inv, Edges, Keep, Collected;
    InvFacts(v.s);
    KeepsEverything(v.s, v.s);
  }

  lemma SameHistoryTransitive(v: View, v': View, v'': View)
    requires SameHistory(v, v') && SameHistory(v', v'')
    ensures SameHistory(v, v'')
  {
  }

  lemma HistoryGrows(v: View, v': View)
    requires SameHistory(v, v')
    ensures v.log <= v'.log
  {
  }

  lemma SameHistoryReflexive(v: View)
    ensures SameHistory(v, v)
  {
  }

  lemma SameHistoryAfterUnlink(v: View, i: nat, m: Module, v': View)
    requires i < |v.s.active| && SameHistory(Unlink(v, i, m), v')
    ensures SameHistory(v, v')
  {
  }

  /** A built-in module owns nothing: off the list it needs no further release. */
  lemma UnlinkedBuiltin(v: View, p: Ptr)
    requires Unlinked(v, p) && v.s.pool[p].builtin
    ensures Lawful(v) && v.s.pool[p].deps == []
  {
    hide Inv, TlsLaw, LogLaw;
    assert OwnedBits(v.s.active, v.s.pool) + OwnBit(v.s.pool[p]) == OwnedBits(v.s.active, v.s.pool);
    assert AttachedNow(v.s.active, v.s.pool) + Live(p, v.s.pool[p]) == AttachedNow(v.s.active, v.s.pool);
  }

  lemma LawfulFacts(v: View)
    requires Lawful(v)
    ensures Inv(v.s) && Distinct(v.s.active) && Allocated(v.s.active, v.s.pool)
    ensures forall p :: p in v.s.held ==> Loadable(v.s, p)
    ensures forall p :: p in v.s.pool ==> p < v.next
    ensures SameHistory(v, v)
  {
    InvFacts(v.s);
  }

  /** The last reference to a counted module goes away. */
  lemma LastReferenceUnlinks(v: View, i: nat)
    requires Lawful(v) && i < |v.s.active| && v.s.active[i] in v.s.held && v.s.active[i] in v.s.pool
    requires v.s.pool[v.s.active[i]].Counted() && v.s.pool[v.s.active[i]].loadCount <= 1
    ensures var p := v.s.active[i];
            var m := v.s.pool[p].(loadCount := 0);
            && Unlinked(Unlink(v, i, m), p)
            && Free(Unlink(v, i, m), p).s == AfterRemoval(v.s, i) && Collected(v.s, AfterRemoval(v.s, i))
            && v.s.held[p] == 1 && Unlink(v, i, m).s.held - multiset(m.deps) == v.s.held - multiset{p}
  {
    hide Inv, Lawful, Unlinked, Collected, Edges, Keep;
    var p := v.s.active[i];
    var m := v.s.pool[p].(loadCount := 0);
    LawfulFacts(v);
    LastReference(v.s, p);
    UnlinkIsLawful(v, i, m);
    RemovalIsCollection(v.s, i);
    assert Unlink(v, i, m).s.pool - {p} == v.s.pool - {p};
    assert Free(Unlink(v, i, m), p).s == AfterRemoval(v.s, i);
  }

  /** Releasing the entries of an unloaded module, then freeing its record. */
  lemma ReleasedThenFreed(v: View, p: Ptr, v': View)
    requires Unlinked(v, p) && !v.s.pool[p].builtin
    requires var u := ClearTls(Detach(v, p), p);
             SameHistory(u, v') && Collected(u.s, v'.s) && Lawful(v')
    ensures Lawful(Free(v', p)) && SameHistory(v, Free(v', p)) && Collected(Free(v, p).s, Free(v', p).s)
    ensures Free(ClearTls(Detach(v, p), p), p).s == Free(v, p).s
  {
    hide Inv, Lawful, Collected, TlsLaw, LogLaw, RecordsOk, Called, Elems;
    var u := ClearTls(Detach(v, p), p);
    DetachThenClear(v, p);
    CollectedMembers(u.s, v'.s);
    CollectedBesideOffListRecord(u.s, v'.s, p);
    FreeIsLawful(v', p);
    assert u.s.pool - {p} == v.s.pool - {p};
    assert u.s.(pool := u.s.pool - {p}) == Free(v, p).s;
  }

  // ---------------------------------------------------------------- the steps of a load

  /** The history a load may leave: calls are added, addresses are used up. */
  ghost predicate LoadHistory(v: View, v': View) {
    && v.next <= v'.next && v'.clients == v.clients && v'.names == v.names
    && v.log <= v'.log
  }

  /** A load under way, seen from its start. */
  ghost predicate Loading(v: View, v': View) {
    Lawful(v') && Quiet(v'.s) && Grown(v.s, v'.s) && LoadHistory(v, v')
  }

  lemma LoadingFacts(v: View, v': View)
    requires Loading(v, v')
    ensures Lawful(v') && Quiet(v'.s) && Grown(v.s, v'.s) && LoadHistory(v, v')
  {
  }

  lemma LoadingReflexive(v: View)
    requires Lawful(v) && Quiet(v.s)
    ensures Loading(v, v)
  {
    hide Lawful;
    assert Elems(v.s.active[|v.s.active|..]) == {};
  }

  lemma LoadingTransitive(v: View, v': View, v'': View)
    requires Loading(v, v') && Loading(v', v'')
    ensures Loading(v, v'')
  {
    hide Lawful, Quiet, Grown;
    GrownTransitive(v.s, v'.s, v''.s);
  }

  /** Giving references back in the middle of a load, down to those held at its start. */
  lemma LoadingThenRelease(v: View, v1: View, v2: View)
    requires Lawful(v) && Quiet(v.s) && Loading(v, v1)
    requires Lawful(v2) && SameHistory(v1, v2) && Collected(v1.s, v2.s) && v.s.held <= v2.s.held
    ensures Loading(v, v2)
  {
    hide Lawful, Inv, Grown, Collected, Called, Quiet;
    LawfulFacts(v);
    LawfulFacts(v2);
    GrowThenCollect(v.s, v1.s, v2.s);
    GrownQuiet(v.s, v2.s);
  }

  /** A load that ends with no reference gained leaves no trace in the table or the TLS bitmap. */
  lemma NoReferenceNoTrace(v: View, v': View)
    requires Lawful(v) && Quiet(v.s) && Loading(v, v') && v'.s.held == v.s.held
    ensures v'.s == v.s && v'.bits == v.bits
  {
    hide Inv, Grown, Quiet, LogLaw, RecordsOk;
    NothingGained(v.s, v'.s);
  }

  lemma ReferenceStep(v: View, p: Ptr, increment: bool)
    requires Lawful(v) && Quiet(v.s) && p in v.s.active && p in v.s.pool
    requires increment && v.s.pool[p].Counted() ==> v.s.pool[p].loadCount < MAXLONG
    ensures Loading(v, v.(s := AfterReference(v.s, p, false, increment)))
    ensures SameHistory(v, v.(s := AfterReference(v.s, p, false, increment)))
  {
    hide Inv, Grown, Lawful;
    var s' := AfterReference(v.s, p, false, increment);
    LawfulFacts(v);
    ReferenceIsExactUnlessSaturated(v.s, p, false, increment);
    CountStepIsLawful(v, s');
    ReferenceIsGrowth(v.s, p, increment);
    GrownQuiet(v.s, s');
  }

  function FreshModule(name: string, path: string): Module {
    Module(name, path, false, 1, false, false, false, false, None, [])
  }

  /** LdkRegisterModule: the caller holds the one reference counted. */
  ghost function Registered(v: View, name: string, path: string): View {
    v.(s := AfterRegistration(v.s, v.next, FreshModule(name, path)), next := v.next + 1)
  }

  lemma RegisterStep(v: View, name: string, path: string)
    requires Lawful(v) && Quiet(v.s) && name in v.names
    ensures Loading(v, Registered(v, name, path))
  {
    hide Inv, Grown, Quiet, TlsLaw, OwnedBits, AttachedNow, LogLaw, Recorded, RecordsOk, AfterRegistration;
    var p, v' := v.next, Registered(v, name, path);
    LawfulFacts(v);
    RegistrationIsExact(v.s, p, FreshModule(name, path));
    GrownQuiet(v.s, v'.s);
    RegisteredOwnsNothing(v, name, path);
    LogLater(v.log, AttachedNow(v.s.active, v.s.pool), v.next, v'.next);
    RegisteredIsUnrecorded(v, name, path);
    RegisteredRecords(v, name, path);
  }

  lemma RegisteredRecords(v: View, name: string, path: string)
    requires RecordsOk(v) && name in v.names
    ensures RecordsOk(Registered(v, name, path))
  {
  }

  lemma RegisteredIsUnrecorded(v: View, name: string, path: string)
    requires Recorded(v.log, v.s.active, v.s.pool) && Allocated(v.s.active, v.s.pool) && v.next !in v.s.pool
    requires LogLaw(v.log, AttachedNow(v.s.active, v.s.pool), v.next)
    ensures Recorded(v.log, Registered(v, name, path).s.active, Registered(v, name, path).s.pool)
  {
    forall p | p in Registered(v, name, path).s.active
      ensures p !in Called(v.log, Unlisting) && p !in Called(v.log, ProcessDetach)
    {
      assert p in v.s.active || p == v.next;
    }
  }

  lemma RegisteredOwnsNothing(v: View, name: string, path: string)
    requires Allocated(v.s.active, v.s.pool) && v.next !in v.s.pool
    requires TlsLaw(v.s.active, v.s.pool, v.bits, OwnedBits(v.s.active, v.s.pool), v.clients)
    ensures var v' := Registered(v, name, path);
            && TlsLaw(v'.s.active, v'.s.pool, v'.bits, OwnedBits(v'.s.active, v'.s.pool), v'.clients)
            && AttachedNow(v'.s.active, v'.s.pool) == AttachedNow(v.s.active, v.s.pool)
  {
    var v' := Registered(v, name, path);
    assert forall q :: q in v'.s.active <==> q in v.s.active || q == v.next;
    assert forall q :: q in v.s.active ==> v'.s.pool[q] == v.s.pool[q];
    forall b | b in OwnedBits(v.s.active, v.s.pool) ensures b in OwnedBits(v'.s.active, v'.s.pool) {
      var q :| q in v.s.active && q in v.s.pool && v.s.pool[q].tls == Some(b);
      assert v'.s.pool[q].tls == Some(b);
    }
    assert OwnedBits(v'.s.active, v'.s.pool) == OwnedBits(v.s.active, v.s.pool);
  }

  lemma LogLater(log: seq<Event>, live: set<Ptr>, next: Ptr, next': Ptr)
    requires LogLaw(log, live, next) && next <= next'
    ensures LogLaw(log, live, next')
  {
  }

  /** A module the load itself has added takes over one entry of its dependency list. */
  lemma MoveStep(v: View, v': View, p: Ptr, d: Ptr)
    requires Loading(v, v') && p !in v.s.pool && p in v'.s.pool
    requires v'.s.active != [] && p == v'.s.active[|v'.s.active| - 1] && v'.s.pool[p].Counted()
    requires d in v'.s.held && d != p && !v'.s.pool[p].attached
    ensures Loading(v, v'.(s := AfterMove(v'.s, p, d)))
  {
    hide Inv, Grown, TlsLaw, LogLaw, OwnedBits, AttachedNow, Recorded;
    var s' := AfterMove(v'.s, p, d);
    LawfulFacts(v');
    MoveIsExact(v'.s, p, d);
    LawsIgnoreCounts(v'.s.active, v'.s.pool, s'.pool);
    TlsFrame(v'.s.active, v'.s.pool, s'.pool, v'.bits, OwnedBits(v'.s.active, v'.s.pool), v'.clients);
    GrownWithNewRecord(v.s, v'.s, p, s'.pool[p], s'.held);
    RecordedFrame(v'.log, v'.s.active, v'.s.pool, s'.pool);
  }

  /** LDK_MODULE_FLAG_RESOURCE_ONLY */
  function MarkResourceOnly(v: View, p: Ptr): View
    requires p in v.s.pool
  {
    v.(s := v.s.(pool := v.s.pool[p := v.s.pool[p].(resourceOnly := true)]))
  }

  lemma ResourceOnlyStep(v: View, v': View, p: Ptr)
    requires Loading(v, v') && p !in v.s.pool && p in v'.s.pool && v'.s.pool[p].Counted()
    ensures Loading(v, MarkResourceOnly(v', p))
  {
    hide Inv, Grown, TlsLaw, LogLaw, OwnedBits, AttachedNow, Recorded;
    var w := MarkResourceOnly(v', p);
    RecordedFrame(v'.log, v'.s.active, v'.s.pool, w.s.pool);
    LawfulFacts(v');
    FlagsAreInert(v'.s, p, w.s.pool[p]);
    LawsIgnoreCounts(v'.s.active, v'.s.pool, w.s.pool);
    TlsFrame(v'.s.active, v'.s.pool, w.s.pool, v'.bits, OwnedBits(v'.s.active, v'.s.pool), v'.clients);
    GrownWithNewRecord(v.s, v'.s, p, w.s.pool[p], w.s.held);
  }

  /** A free TLS index becomes the module's own. */
  function TakeTls(v: View, p: Ptr, index: nat): View
    requires p in v.s.pool
  {
    v.(bits := v.bits + {index}, s := v.s.(pool := v.s.pool[p := v.s.pool[p].(tls := Some(index))]))
  }

  lemma TakeTlsStep(v: View, v': View, p: Ptr, index: nat)
    requires Loading(v, v') && p !in v.s.pool && p in v'.s.pool && v'.s.pool[p].Counted()
    requires p in v'.s.active && v'.s.pool[p].tls == None && index !in v'.bits
    ensures Loading(v, TakeTls(v', p, index))
  {
    hide Inv, Grown, LogLaw, AttachedNow, TlsLaw, Recorded;
    var w := TakeTls(v', p, index);
    RecordedFrame(v'.log, v'.s.active, v'.s.pool, w.s.pool);
    LawfulFacts(v');
    FlagsAreInert(v'.s, p, w.s.pool[p]);
    GrownWithNewRecord(v.s, v'.s, p, w.s.pool[p], w.s.held);
    TakeTlsLaw(v', p, index);
    assert AttachedNow(w.s.active, w.s.pool) == AttachedNow(v'.s.active, v'.s.pool) by { AttachedFrame(v', p, w); }
  }

  lemma AttachedFrame(v: View, p: Ptr, w: View)
    requires p in v.s.pool && w.s.active == v.s.active && w.s.pool.Keys == v.s.pool.Keys
    requires forall q :: q in v.s.pool ==> w.s.pool[q].attached == v.s.pool[q].attached
    ensures AttachedNow(w.s.active, w.s.pool) == AttachedNow(v.s.active, v.s.pool)
  {
  }

  lemma TakeTlsLaw(v: View, p: Ptr, index: nat)
    requires p in v.s.pool && p in v.s.active && v.s.pool[p].tls == None && index !in v.bits
    requires TlsLaw(v.s.active, v.s.pool, v.bits, OwnedBits(v.s.active, v.s.pool), v.clients)
    ensures var w := TakeTls(v, p, index);
            TlsLaw(w.s.active, w.s.pool, w.bits, OwnedBits(w.s.active, w.s.pool), w.clients)
  {
    var w := TakeTls(v, p, index);
    assert OwnedBits(w.s.active, w.s.pool) == OwnedBits(v.s.active, v.s.pool) + {index} by {
      assert w.s.pool[p].tls == Some(index);
      assert forall q :: q in v.s.pool && q != p ==> w.s.pool[q] == v.s.pool[q];
    }
    forall q | q in v.s.active && HasTls(v.s.pool, q) ensures v.s.pool[q].tls.value in OwnedBits(v.s.active, v.s.pool) {
    }
  }

  /** DLL_PROCESS_ATTACH */
  function Attach(v: View, p: Ptr): View
    requires p in v.s.pool
  {
    v.(s := v.s.(pool := v.s.pool[p := v.s.pool[p].(attached := true)]),
       log := v.log + [Event(ProcessAttach, p, v.s.pool[p].deps)])
  }

  lemma AttachStep(v: View, v': View, p: Ptr)
    requires Loading(v, v') && p !in v.s.pool && p in v'.s.pool && v'.s.pool[p].Counted()
    requires p in v'.s.active && p !in Called(v'.log, ProcessAttach) && p + 1 == v'.next
    ensures Loading(v, Attach(v', p))
  {
    hide Grown, LogLaw, TlsLaw, OwnedBits, Called, CountsExact, Edges, Recorded, Legal;
    var w := Attach(v', p);
    FlagsAreInert(v'.s, p, w.s.pool[p]);
    GrownWithNewRecord(v.s, v'.s, p, w.s.pool[p], w.s.held);
    AttachTls(v', p);
    AttachIsLegal(v', p);
    LogNext(v'.log, AttachedNow(v'.s.active, v'.s.pool), v'.next, w.log[|v'.log|]);
    AttachIsRecorded(v', p);
    assert AttachedNow(w.s.active, w.s.pool) == AttachedNow(v'.s.active, v'.s.pool) + {p};
  }

  /** The newest module may be attached: all it depends on is older and listed. */
  lemma AttachIsLegal(v: View, p: Ptr)
    requires Lawful(v) && p in v.s.active && p !in Called(v.log, ProcessAttach) && p + 1 == v.next
    ensures p in v.s.pool && Legal(v.log, Event(ProcessAttach, p, v.s.pool[p].deps))
  {
    hide HeldListed, CountsExact, Edges, TlsLaw;
    var deps := v.s.pool[p].deps;
    forall d | d in deps ensures d < p && d in v.s.active {
      assert Loadable(v.s, d);
      var i :| 0 <= i < |v.s.active| && v.s.active[i] == p;
      assert d in v.s.active[..i];
    }
    forall q | q in Called(v.log, ProcessAttach) ensures q < p {
      var e :| e in v.log && e.reason == ProcessAttach && e.target == q;
      assert q < v.next && q != p;
    }
  }

  lemma AttachIsRecorded(v: View, p: Ptr)
    requires Recorded(v.log, v.s.active, v.s.pool) && p in v.s.pool
    ensures Recorded(Attach(v, p).log, v.s.active, Attach(v, p).s.pool)
  {
    var w := Attach(v, p);
    var e := w.log[|v.log|];
    CalledSnoc(v.log, e, Unlisting);
    CalledSnoc(v.log, e, ProcessDetach);
    forall x | x in v.log ensures x in w.log {
    }
    assert e in w.log;
  }

  lemma AttachTls(v: View, p: Ptr)
    requires p in v.s.pool && Allocated(v.s.active, v.s.pool)
    requires TlsLaw(v.s.active, v.s.pool, v.bits, OwnedBits(v.s.active, v.s.pool), v.clients)
    ensures var w := Attach(v, p);
            TlsLaw(w.s.active, w.s.pool, w.bits, OwnedBits(w.s.active, w.s.pool), w.clients)
  {
    var w := Attach(v, p);
    assert OwnedBits(w.s.active, w.s.pool) == OwnedBits(v.s.active, v.s.pool) by {
      assert forall q :: q in v.s.pool ==> w.s.pool[q].tls == v.s.pool[q].tls;
    }
  }

  lemma HeldIsListed(v: View, list: seq<Ptr>)
    requires Lawful(v) && Refs(list) <= v.s.held
    ensures forall d :: d in list ==> Loadable(v.s, d)
  {
    InvFacts(v.s);
    forall d | d in list ensures Loadable(v.s, d) {
      assert d in Refs(list);
    }
  }

  lemma FreshIsNotInHand(v: View, list: seq<Ptr>, p: Ptr)
    requires Lawful(v) && Refs(list) <= v.s.held && p !in v.s.pool
    ensures p !in list
  {
    HeldIsListed(v, list);
  }

  /** LoadingThenRelease, with what the caller needs to go on. */
  lemma ReleasedAgain(v: View, v1: View, v2: View)
    requires Lawful(v) && Quiet(v.s) && Loading(v, v1)
    requires Lawful(v2) && SameHistory(v1, v2) && Collected(v1.s, v2.s) && v.s.held <= v2.s.held
    ensures Loading(v, v2) && Quiet(v2.s)
  {
    hide Lawful, Grown;
    LoadingThenRelease(v, v1, v2);
    LawfulFacts(v1);
  }

  /** A module registered in the middle of a load. */
  lemma RegisteredInLoad(v: View, w: View, name: string, path: string, list: seq<Ptr>)
    requires Lawful(v) && Loading(v, w) && name in w.names && Refs(list) <= w.s.held
    ensures var w', p := Registered(w, name, path), w.next;
            && Loading(v, w')
            && p !in v.s.pool && p !in w.s.pool && p !in list
            && p !in Called(w.log, ProcessAttach)
            && w'.s.held == w.s.held + multiset{p}
  {
    hide Grown, Inv, TlsLaw, RecordsOk, Quiet;
    LoadingFacts(v, w);
    LawfulFacts(w);
    RegisterStep(w, name, path);
    LoadingTransitive(v, w, Registered(w, name, path));
    HeldIsListed(w, list);
    GrownMembers(v.s, w.s);
    FreshIsNotBelow(v, w);
  }

  lemma FreshIsNotBelow(v: View, w: View)
    requires Grown(v.s, w.s) && forall p :: p in w.s.pool ==> p < w.next
    ensures w.next !in v.s.pool
  {
  }

  /** A load under way with `list` in hand; `leaked` references will not come back. */
  ghost predicate Carrying(v: View, v': View, list: seq<Ptr>, leaked: multiset<Ptr>) {
    && Loading(v, v')
    && Exchanged(v.s.held, [], v'.s.held, list, leaked)
    && Refs(list) <= v'.s.held
  }

  lemma CarryingNothing(v: View)
    requires Lawful(v) && Quiet(v.s)
    ensures Carrying(v, v, [], multiset{})
  {
    hide Lawful, Loading;
    LoadingReflexive(v);
  }

  lemma CarryingStep(v: View, w: View, list: seq<Ptr>, leaked: multiset<Ptr>, v': View, list': seq<Ptr>,
                     extra: multiset<Ptr>)
    requires Carrying(v, w, list, leaked) && Loading(w, v')
    requires Exchanged(w.s.held, list, v'.s.held, list', extra)
    ensures Carrying(v, v', list', leaked + extra)
  {
    hide Loading, Exchanged;
    LoadingTransitive(v, w, v');
    ExchangedTwice(v.s.held, w.s.held, list, leaked, v'.s.held, list', extra);
  }

  lemma CarryingFacts(v: View, v': View, list: seq<Ptr>, leaked: multiset<Ptr>)
    requires Carrying(v, v', list, leaked)
    ensures Loading(v, v') && Refs(list) <= v'.s.held
    ensures v'.s.held == v.s.held + Refs(list) + leaked
  {
  }

  lemma PinStep(v: View, p: Ptr, pin: bool, increment: bool)
    requires Lawful(v) && Quiet(v.s) && p in v.s.active && p in v.s.pool
    requires increment && !pin && v.s.pool[p].Counted() ==> v.s.pool[p].loadCount < MAXLONG
    ensures var v' := v.(s := AfterReference(v.s, p, pin, increment));
            Lawful(v') && Quiet(v'.s) && SameHistory(v, v')
  {
    hide Inv, Lawful;
    LawfulFacts(v);
    ReferenceIsExactUnlessSaturated(v.s, p, pin, increment);
    CountStepIsLawful(v, AfterReference(v.s, p, pin, increment));
  }

  /** Shutdown takes built-in modules off the list as well; their records are static. */
  ghost predicate OnlyBuiltinsOffList(s: State) {
    forall p :: p in s.pool && p !in s.active ==> s.pool[p].builtin
  }

  lemma OffListAfterTail(v: View, i: nat, s': State)
    requires OnlyBuiltinsOffList(v.s) && i < |v.s.active| && Allocated(v.s.active, v.s.pool) && Distinct(v.s.active)
    requires var p := v.s.active[i];
             var u := Unlink(v, i, v.s.pool[p]);
             if v.s.pool[p].builtin then s' == u.s.(held := s'.held) else Collected(Free(u, p).s, s')
    ensures OnlyBuiltinsOffList(s') && |s'.active| < |v.s.active|
  {
    hide Keep;
    var p := v.s.active[i];
    var u := Unlink(v, i, v.s.pool[p]);
    WithoutElems(v.s.active, i);
    assert forall q :: q in u.s.active <==> q in Elems(u.s.active);
    assert forall q :: q in v.s.active <==> q in Elems(v.s.active);
    if !v.s.pool[p].builtin {
      CollectedMembers(Free(u, p).s, s');
      forall q | q in s'.pool && q !in s'.active ensures s'.pool[q].builtin {
        assert q !in Elems(s'.active);
      }
    }
  }

  /** With nothing registered, whatever was attached has been detached. */
  lemma NothingLive(v: View)
    requires Lawful(v) && v.s.active == []
    ensures v.bits == v.clients
    ensures LogLaw(v.log, {}, v.next) && Called(v.log, ProcessDetach) == Called(v.log, ProcessAttach)
  {
    assert OwnedBits(v.s.active, v.s.pool) == {};
    assert AttachedNow(v.s.active, v.s.pool) == {};
    DetachesFollowAttaches(v.log, {}, v.next);
    var attached, detached := Called(v.log, ProcessAttach), Called(v.log, ProcessDetach);
    assert forall p :: p in attached && p !in detached ==> p in attached - detached;
  }

  // ---------------------------------------------------------------- thread notifications

  /** The process-attached modules, in list order. */
  function AttachedInOrder(active: seq<Ptr>, pool: Pool): seq<Ptr>
    requires forall p :: p in active ==> p in pool
  {
    if active == [] then []
    else
      var rest := AttachedInOrder(active[..|active| - 1], pool);
      if pool[active[|active| - 1]].attached then rest + [active[|active| - 1]] else rest
  }

  lemma {:induction false} AttachedAreListed(active: seq<Ptr>, pool: Pool)
    requires forall p :: p in active ==> p in pool
    ensures forall p :: p in AttachedInOrder(active, pool) ==> p in active
  {
    if active != [] {
      AttachedAreListed(active[..|active| - 1], pool);
    }
  }

  /** It is the list without those that are not attached. */
  lemma {:induction false} AttachedAreKept(active: seq<Ptr>, pool: Pool)
    requires forall p :: p in active ==> p in pool
    ensures AttachedInOrder(active, pool) == Keep(active, AttachedNow(active, pool))
  {
    if active != [] {
      var init, p := active[..|active| - 1], active[|active| - 1];
      AttachedAreKept(init, pool);
      assert active == init + [p];
      KeepMembersAlike(init, AttachedNow(init, pool), AttachedNow(active, pool));
      KeepSnoc(init, p, AttachedNow(active, pool));
    }
  }

  lemma {:induction false} KeepMembersAlike(s: seq<Ptr>, k: set<Ptr>, k': set<Ptr>)
    requires forall p :: p in s ==> (p in k <==> p in k')
    ensures Keep(s, k) == Keep(s, k')
  {
    if s != [] {
      KeepMembersAlike(s[..|s| - 1], k, k');
    }
  }

  lemma AttachedNext(active: seq<Ptr>, pool: Pool, i: nat)
    requires (forall p :: p in active ==> p in pool) && i < |active|
    ensures AttachedInOrder(active[..i + 1], pool) ==
            if pool[active[i]].attached then Snoc(AttachedInOrder(active[..i], pool), active[i])
            else AttachedInOrder(active[..i], pool)
  {
    assert active[..i + 1][..i] == active[..i];
  }

  lemma CountNext(active: seq<Ptr>, pool: Pool, i: nat)
    requires (forall p :: p in active ==> p in pool) && i < |active|
    ensures |AttachedInOrder(active[..i + 1], pool)| ==
            |AttachedInOrder(active[..i], pool)| + if pool[active[i]].attached then 1 else 0
  {
    assert active[..i + 1][..i] == active[..i];
  }

  /** LDK_MODULE_FLAG_THREAD_LIBRARY_CALLS_DISABLED plays no part in the laws. */
  lemma ThreadCallsOffStep(v: View, p: Ptr)
    requires Lawful(v) && Quiet(v.s) && p in v.s.active && p in v.s.pool
    ensures var w := v.(s := v.s.(pool := v.s.pool[p := v.s.pool[p].(threadCallsOff := true)]));
            Lawful(w) && Quiet(w.s)
  {
    hide Inv, Lawful;
    LawfulFacts(v);
    var m := v.s.pool[p].(threadCallsOff := true);
    FlagsAreInert(v.s, p, m);
    CountStepIsLawful(v, v.s.(pool := v.s.pool[p := m]));
  }

  lemma RefsSnoc(list: seq<Ptr>, p: Ptr)
    ensures Refs(Snoc(list, p)) == Refs(list) + multiset{p} && Refs([]) == multiset{}
  {
  }

  lemma AttachedFrameOne(active: seq<Ptr>, s: State, p: Ptr)
    requires (forall q :: q in active ==> q in s.pool) && p in s.pool
    ensures AttachedInOrder(active, AfterReference(s, p, false, true).pool) == AttachedInOrder(active, s.pool)
  {
    if active != [] {
      AttachedFrameOne(active[..|active| - 1], s, p);
    }
  }

  /** Whoever holds a snapshot may use every record in it. */
  lemma SnapshotIsAllocated(v: View, snapshot: seq<Ptr>)
    requires Lawful(v) && Refs(snapshot) <= v.s.held
    ensures forall i :: 0 <= i < |snapshot| ==> snapshot[i] in v.s.pool && snapshot[i] in v.s.active
  {
    HeldIsListed(v, snapshot);
    assert forall i :: 0 <= i < |snapshot| ==> snapshot[i] in snapshot;
  }

  lemma AttachedIsLoadable(v: View, p: Ptr)
    requires Lawful(v) && p in v.s.active && p in v.s.pool && v.s.pool[p].attached
    ensures !v.s.pool[p].builtin
  {
  }

  lemma DetachedIsDetermined(v: View, v': View)
    requires Lawful(v) && Lawful(v') && v'.s == v.s && SameHistory(v, v')
    ensures Called(v'.log, ProcessAttach) == Called(v.log, ProcessAttach)
    ensures Called(v'.log, ProcessDetach) == Called(v.log, ProcessDetach)
  {
    hide Inv, TlsLaw, RecordsOk, AttachedNow, Called, Legal;
    DetachesFollowAttaches(v.log, AttachedNow(v.s.active, v.s.pool), v.next);
    DetachesFollowAttaches(v'.log, AttachedNow(v'.s.active, v'.s.pool), v'.next);
    var a, d, d' := Called(v.log, ProcessAttach), Called(v.log, ProcessDetach), Called(v'.log, ProcessDetach);
    assert d == a - (a - d) && d' == a - (a - d');
  }

  /** A module that is linked into the loader. */
  datatype Builtin = Builtin(name: string, path: string)

  function BuiltinModule(b: Builtin): Module {
    Module(b.name, b.path, true, 0, false, false, false, false, None, [])
  }

  /** The table of built-in modules is lawful before anything is loaded. */
  lemma BuiltinsAreLawful(v: View, builtins: seq<Builtin>)
    requires v.s.active == seq(|builtins|, i => i) && v.next == |builtins|
    requires v.s.pool == map i | 0 <= i < |builtins| :: BuiltinModule(builtins[i])
    requires v.s.held == multiset{} && v.log == [] && v.bits == v.clients
    requires forall b :: b in builtins ==> b.name in v.names
    ensures Lawful(v) && Quiet(v.s)
  {
    hide Inv, TlsLaw, LogLaw, Recorded, Legal;
    BuiltinTable(v, builtins);
    BuiltinsOwnNothing(v, builtins);
  }

  lemma BuiltinTable(v: View, builtins: seq<Builtin>)
    requires v.s.active == seq(|builtins|, i => i)
    requires v.s.pool == map i | 0 <= i < |builtins| :: BuiltinModule(builtins[i])
    requires v.s.held == multiset{}
    ensures Inv(v.s) && Quiet(v.s)
    ensures forall p :: p in v.s.active <==> p in v.s.pool
  {
    forall i | 0 <= i < |builtins|
      ensures v.s.active[i] == i && i in v.s.active
    {
      assert v.s.active[i] == i;
    }
    assert Elems(v.s.active) == v.s.pool.Keys;
  }

  lemma BuiltinsOwnNothing(v: View, builtins: seq<Builtin>)
    requires v.s.pool == map i | 0 <= i < |builtins| :: BuiltinModule(builtins[i])
    requires v.log == [] && v.bits == v.clients
    ensures TlsLaw(v.s.active, v.s.pool, v.bits, OwnedBits(v.s.active, v.s.pool), v.clients)
    ensures LogLaw(v.log, AttachedNow(v.s.active, v.s.pool), v.next) && Recorded(v.log, v.s.active, v.s.pool)
  {
    assert OwnedBits(v.s.active, v.s.pool) == {};
    assert AttachedNow(v.s.active, v.s.pool) == {};
  }
}
