/** Import resolution by several threads at once.

    LdkpResolveImportModule looks a module up in one locked section and takes its reference in another, and
    in between it reads the record without the lock; unloading takes a record off the list under the lock and
    frees it after that.  One step is one locked section, or one access between two of them.  References are
    held by threads: a dependency entry counts as held by the thread that will release it.  The order of the
    list plays no part here, nor do pinned and built-in modules, which never go away. */
module ImportRace {
  import opened ModuleGraph

  /** `Found` has the pointer, `Checked` has read its record, and `Freeing` has taken a record off the list.
      A thread that touches a record that is not there is at `Fault`, and stays there. */
  datatype Pc = Idle | Found(p: Ptr) | Checked(p: Ptr) | Freeing(p: Ptr) | Fault

  /** `count` holds the load count of each record that has not been freed. */
  datatype Table = Table(active: set<Ptr>, count: map<Ptr, int>, next: Ptr, hands: seq<multiset<Ptr>>, pcs: seq<Pc>)

  /** What an idle thread does next; or, at `Found`, whether it ends without a reference, because the module is
      a dependency already or because there is no room for the entry. */
  datatype Choice = Load | Look(p: Ptr) | Reference(p: Ptr) | Release(p: Ptr) | GiveUp

  datatype Turn = Turn(thread: nat, choice: Choice)

  function Threads(n: nat): Table {
    Table({}, map[], 0, seq(n, _ => multiset{}), seq(n, _ => Idle))
  }

  function Move(s: Table, t: nat, pc: Pc): Table
    requires t < |s.pcs|
  {
    s.(pcs := s.pcs[t := pc])
  }

  /** One more reference, in the hand of the thread. */
  function Take(s: Table, t: nat, p: Ptr): Table
    requires t < |s.hands| && p in s.count
  {
    s.(count := s.count[p := s.count[p] + 1], hands := s.hands[t := s.hands[t] + multiset{p}])
  }

  /** LdkUnloadDll, up to the release of the lock. */
  function Drop(s: Table, t: nat, p: Ptr): Table
    requires t < |s.pcs| && t < |s.hands|
  {
    var s1 := s.(hands := s.hands[t := s.hands[t] - multiset{p}]);
    if p !in s.active || p !in s.count then s1
    else if s.count[p] > 1 then s1.(count := s.count[p := s.count[p] - 1])
    else Move(s1, t, Freeing(p)).(count := s.count[p := 0], active := s.active - {p})
  }

  /** One step of thread `t`. */
  function Step(s: Table, t: nat, c: Choice): Table
    requires t < |s.pcs| && t < |s.hands|
  {
    match s.pcs[t]
    case Idle =>
      (match c
       case Load =>
         s.(active := s.active + {s.next}, count := s.count[s.next := 1], next := s.next + 1,
            hands := s.hands[t := s.hands[t] + multiset{s.next}])
       case Look(p) => if p in s.active then Move(s, t, Found(p)) else s
       case Reference(p) => if p in s.active && p in s.count then Take(s, t, p) else s
       case Release(p) => if p in s.hands[t] then Drop(s, t, p) else s
       case GiveUp => s)
    case Found(p) =>
      if p !in s.count then Move(s, t, Fault) else Move(s, t, if c.GiveUp? then Idle else Checked(p))
    case Checked(p) => if p !in s.count then Move(s, t, Fault) else Take(Move(s, t, Idle), t, p)
    case Freeing(p) => Move(s, t, Idle).(count := s.count - {p})
    case Fault => s
  }

  function After(n: nat, turns: seq<Turn>): (s: Table)
    ensures |s.pcs| == |s.hands| == n
  {
    if turns == [] then Threads(n)
    else
      var before, turn := After(n, turns[..|turns| - 1]), turns[|turns| - 1];
      if turn.thread < n then Step(before, turn.thread, turn.choice) else before
  }

  /** How many references to `p` the threads hold. */
  ghost function Held(hands: seq<multiset<Ptr>>, p: Ptr): nat {
    if hands == [] then 0 else Held(hands[..|hands| - 1], p) + hands[|hands| - 1][p]
  }

  lemma {:induction false} HeldAfter(hands: seq<multiset<Ptr>>, t: nat, hand: multiset<Ptr>, p: Ptr)
    requires t < |hands|
    ensures Held(hands[t := hand], p) == Held(hands, p) - hands[t][p] + hand[p]
    ensures hands[t][p] <= Held(hands, p)
  {
    var init, hands' := hands[..|hands| - 1], hands[t := hand];
    if t < |init| {
      HeldAfter(init, t, hand, p);
      assert hands'[..|hands| - 1] == init[t := hand];
    } else {
      assert hands'[..|hands| - 1] == init;
    }
  }

  /** The counts are exact, what is held is listed, and nobody has touched a record that is gone. */
  ghost predicate Sound(s: Table) {
    && (forall p :: p in s.active ==> p in s.count && s.count[p] == Held(s.hands, p))
    && (forall t, p :: 0 <= t < |s.hands| && p in s.hands[t] ==> p in s.active)
    && (forall t :: 0 <= t < |s.pcs| ==> !s.pcs[t].Fault?)
  }

  // ---------------------------------------------------------------- when a run is sound

  /** The step touches a record that is gone, or takes a reference to a module that is off the list. */
  ghost predicate Late(s: Table, t: nat)
    requires t < |s.pcs|
  {
    match s.pcs[t]
    case Found(p) => p !in s.count
    case Checked(p) => p !in s.active
    case _ => false
  }

  /** What holds in every run, sound or not: addresses are not reused, and only records off the list are freed. */
  ghost predicate Fresh(s: Table) {
    && s.active <= s.count.Keys && (forall p :: p in s.count ==> p < s.next)
    && (forall t, p: Ptr :: 0 <= t < |s.pcs| && s.pcs[t] == Freeing(p) ==> p !in s.active && p < s.next)
    && (forall t, p: Ptr :: 0 <= t < |s.pcs| && (s.pcs[t] == Found(p) || s.pcs[t] == Checked(p)) ==> p < s.next)
  }

  lemma StepKeepsFresh(s: Table, t: nat, c: Choice)
    requires Fresh(s) && t < |s.pcs| == |s.hands|
    ensures Fresh(Step(s, t, c))
  {
  }

  /** What one hand has more or less, all hands together have more or less. */
  lemma HeldOne(hands: seq<multiset<Ptr>>, t: nat, p: Ptr)
    requires t < |hands|
    ensures forall q: Ptr :: Held(hands[t := hands[t] + multiset{p}], q) == Held(hands, q) + (if q == p then 1 else 0)
    ensures p in hands[t] ==>
              forall q: Ptr :: Held(hands[t := hands[t] - multiset{p}], q) == Held(hands, q) - (if q == p then 1 else 0)
    ensures p in hands[t] ==> Held(hands, p) >= 1
  {
    forall q: Ptr
      ensures Held(hands[t := hands[t] + multiset{p}], q) == Held(hands, q) + (if q == p then 1 else 0)
      ensures p in hands[t] ==>
                Held(hands[t := hands[t] - multiset{p}], q) == Held(hands, q) - (if q == p then 1 else 0)
      ensures hands[t][q] <= Held(hands, q)
    {
      HeldAfter(hands, t, hands[t] + multiset{p}, q);
      HeldAfter(hands, t, hands[t] - multiset{p}, q);
    }
  }

  lemma NobodyHolds(hands: seq<multiset<Ptr>>, p: Ptr)
    requires Held(hands, p) == 0
    ensures forall t :: 0 <= t < |hands| ==> p !in hands[t]
  {
    forall t | 0 <= t < |hands| ensures p !in hands[t] {
      HeldAfter(hands, t, hands[t], p);
    }
  }

  lemma UnlistedIsNotHeld(s: Table, p: Ptr)
    requires Sound(s) && p !in s.active
    ensures Held(s.hands, p) == 0
  {
    HeldNowhere(s.hands, p);
  }

  lemma {:induction false} HeldNowhere(hands: seq<multiset<Ptr>>, p: Ptr)
    requires forall t :: 0 <= t < |hands| ==> p !in hands[t]
    ensures Held(hands, p) == 0
  {
    if hands != [] {
      HeldNowhere(hands[..|hands| - 1], p);
    }
  }

  lemma LoadIsSound(s: Table, t: nat)
    requires Fresh(s) && Sound(s) && t < |s.pcs| == |s.hands| && s.pcs[t].Idle?
    ensures Sound(Step(s, t, Load))
  {
    hide Held;
    HeldOne(s.hands, t, s.next);
    UnlistedIsNotHeld(s, s.next);
  }

  lemma DropIsSound(s: Table, t: nat, p: Ptr)
    requires Fresh(s) && Sound(s) && t < |s.pcs| == |s.hands| && p in s.hands[t]
    ensures Sound(Drop(s, t, p))
  {
    hide Held;
    HeldOne(s.hands, t, p);
    if s.count[p] == 1 {
      NobodyHolds(Drop(s, t, p).hands, p);
    }
  }

  lemma TakeIsSound(s: Table, t: nat, p: Ptr)
    requires Sound(s) && t < |s.pcs| == |s.hands| && p in s.count
    ensures Sound(Take(s, t, p)) <==> p in s.active
  {
    hide Held;
    HeldOne(s.hands, t, p);
    assert p in Take(s, t, p).hands[t];
  }

  /** A step keeps a table sound if and only if it is not late. */
  lemma StepIsSound(s: Table, t: nat, c: Choice)
    requires Fresh(s) && Sound(s) && t < |s.pcs| == |s.hands|
    ensures Sound(Step(s, t, c)) <==> !Late(s, t)
  {
    hide Held;
    match s.pcs[t] {
      case Idle =>
        match c {
          case Load => LoadIsSound(s, t);
          case Release(p) =>
            if p in s.hands[t] {
              DropIsSound(s, t, p);
            }
          case Reference(p) =>
            if p in s.active {
              TakeIsSound(s, t, p);
            }
          case _ =>
        }
      case Checked(p) =>
        if p in s.count {
          TakeIsSound(Move(s, t, Idle), t, p);
        } else {
          assert Step(s, t, c).pcs[t].Fault?;
        }
      case Found(p) =>
        assert p !in s.count ==> Step(s, t, c).pcs[t].Fault?;
      case _ =>
    }
  }

  // ---------------------------------------------------------------- whole runs

  /** The guard of the branch of LdkUnloadDll that takes `p` off the list. */
  ghost predicate Unlists(s: Table, t: nat, c: Choice, p: Ptr)
    requires t < |s.pcs| && t < |s.hands|
  {
    && s.pcs[t].Idle? && c == Release(p)
    && p in s.hands[t] && p in s.active && p in s.count && s.count[p] <= 1
  }

  /** At turn `k` the last reference to `p` is given back, and `p` goes off the list. */
  ghost predicate LastRelease(n: nat, turns: seq<Turn>, k: nat, p: Ptr) {
    && k < |turns| && turns[k].thread < n
    && Unlists(After(n, turns[..k]), turns[k].thread, turns[k].choice, p)
  }

  /** At turn `k` the record of `p` goes back to the pool. */
  ghost predicate Frees(n: nat, turns: seq<Turn>, k: nat, p: Ptr) {
    && k < |turns| && turns[k].thread < n
    && After(n, turns[..k]).pcs[turns[k].thread] == Freeing(p)
  }

  /** At turn `j` no thread comes too late: it reads a record that has not been freed since it found it, or
      takes its reference with the last release not yet given. */
  ghost predicate InTime(n: nat, turns: seq<Turn>, j: nat)
    requires j < |turns|
  {
    var s, t := After(n, turns[..j]), turns[j].thread;
    t < n ==>
      match s.pcs[t]
      case Found(p) => forall k: nat :: k < j ==> !Frees(n, turns, k, p)
      case Checked(p) => forall k: nat :: k < j ==> !LastRelease(n, turns, k, p)
      case _ => true
  }

  lemma AfterNext(n: nat, turns: seq<Turn>, j: nat)
    requires j < |turns|
    ensures var s, turn := After(n, turns[..j]), turns[j];
            After(n, turns[..j + 1]) == if turn.thread < n then Step(s, turn.thread, turn.choice) else s
  {
    assert turns[..j + 1][..j] == turns[..j];
  }

  lemma {:induction false} RunKeepsFresh(n: nat, turns: seq<Turn>, j: nat)
    requires j <= |turns|
    ensures Fresh(After(n, turns[..j]))
  {
    hide Fresh, Step;
    if j == 0 {
      StartIsSound(n);
    } else {
      RunKeepsFresh(n, turns, j - 1);
      AfterNext(n, turns, j - 1);
      if turns[j - 1].thread < n {
        StepKeepsFresh(After(n, turns[..j - 1]), turns[j - 1].thread, turns[j - 1].choice);
      }
    }
  }

  lemma StartIsSound(n: nat)
    ensures Fresh(Threads(n)) && Sound(Threads(n))
  {
  }

  lemma StepTells(s: Table, t: nat, c: Choice, p: Ptr)
    requires Fresh(s) && t < |s.pcs| == |s.hands|
    ensures var s', loaded := Step(s, t, c), s.pcs[t].Idle? && c.Load?;
            && s'.next == s.next + (if loaded then 1 else 0)
            && (p in s'.active <==> (p in s.active && !Unlists(s, t, c, p)) || (loaded && p == s.next))
            && (p in s'.count <==> (p in s.count && s.pcs[t] != Freeing(p)) || (loaded && p == s.next))
            && (Unlists(s, t, c, p) || s.pcs[t] == Freeing(p) ==> p < s.next)
  {
  }

  /** The list and the pool can be read off the history: a module that was ever registered is listed until its
      last release, and its record is there until it is freed. */
  lemma {:induction false} HistoryTells(n: nat, turns: seq<Turn>, j: nat, p: Ptr)
    requires j <= |turns|
    ensures var s := After(n, turns[..j]);
            && (p in s.active <==> p < s.next && forall k: nat :: k < j ==> !LastRelease(n, turns, k, p))
            && (p in s.count <==> p < s.next && forall k: nat :: k < j ==> !Frees(n, turns, k, p))
            && (p >= s.next ==> forall k: nat :: k < j ==> !LastRelease(n, turns, k, p) && !Frees(n, turns, k, p))
  {
    hide After, Fresh, Step, Unlists;
    if j == 0 {
      NothingRegistered(n, turns);
    } else {
      var s, turn := After(n, turns[..j - 1]), turns[j - 1];
      HistoryTells(n, turns, j - 1, p);
      RunKeepsFresh(n, turns, j - 1);
      AfterNext(n, turns, j - 1);
      if turn.thread < n {
        StepTells(s, turn.thread, turn.choice, p);
        assert LastRelease(n, turns, j - 1, p) <==> Unlists(s, turn.thread, turn.choice, p);
        assert Frees(n, turns, j - 1, p) <==> s.pcs[turn.thread] == Freeing(p);
      }
    }
  }

  lemma NothingRegistered(n: nat, turns: seq<Turn>)
    ensures var s := After(n, turns[..0]); s.active == {} && s.count == map[] && s.next == 0
  {
  }

  lemma LateIsNotInTime(n: nat, turns: seq<Turn>, j: nat)
    requires j < |turns| && turns[j].thread < n
    ensures Late(After(n, turns[..j]), turns[j].thread) <==> !InTime(n, turns, j)
  {
    hide LastRelease, Frees, After;
    var s, t := After(n, turns[..j]), turns[j].thread;
    RunKeepsFresh(n, turns, j);
    match s.pcs[t] {
      case Found(p) => HistoryTells(n, turns, j, p);
      case Checked(p) => HistoryTells(n, turns, j, p);
      case _ =>
    }
  }

  lemma {:induction false} InTimeIsSound(n: nat, turns: seq<Turn>, m: nat)
    requires m <= |turns| && forall j: nat :: j < m ==> InTime(n, turns, j)
    ensures Sound(After(n, turns[..m]))
  {
    hide Sound, Late, InTime, Fresh, Step;
    if m == 0 {
      StartIsSound(n);
    } else {
      InTimeIsSound(n, turns, m - 1);
      AfterNext(n, turns, m - 1);
      NextIsSound(n, turns, m - 1);
    }
  }

  lemma NextIsSound(n: nat, turns: seq<Turn>, j: nat)
    requires j < |turns| && Sound(After(n, turns[..j]))
    ensures Sound(After(n, turns[..j + 1])) <==> InTime(n, turns, j)
  {
    hide Sound, Late, Fresh, Step, LastRelease, Frees, After;
    var s, t := After(n, turns[..j]), turns[j].thread;
    AfterNext(n, turns, j);
    if t < n {
      RunKeepsFresh(n, turns, j);
      StepIsSound(s, t, turns[j].choice);
      LateIsNotInTime(n, turns, j);
    }
  }

  /** A run is sound all along if and only if no thread reads the record it has found after that has been
      freed, and none takes its reference after the last release of the module. */
  lemma SoundIfAndOnlyIfInTime(n: nat, turns: seq<Turn>)
    ensures (forall m: nat :: m <= |turns| ==> Sound(After(n, turns[..m])))
            <==> (forall j: nat :: j < |turns| ==> InTime(n, turns, j))
  {
    hide Sound, InTime, After;
    if forall j: nat :: j < |turns| ==> InTime(n, turns, j) {
      forall m: nat | m <= |turns| ensures Sound(After(n, turns[..m])) {
        InTimeIsSound(n, turns, m);
      }
    } else {
      var j: nat :| j < |turns| && !InTime(n, turns, j);
      if Sound(After(n, turns[..j])) {
        NextIsSound(n, turns, j);
        assert !Sound(After(n, turns[..j + 1]));
      }
    }
  }

  /** The last release that comes in between comes after the lookup: then the module was still listed. */
  lemma {:induction false} FoundWhenListed(n: nat, turns: seq<Turn>, j: nat, t: nat, p: Ptr) returns (i: nat)
    requires j <= |turns| && t < n
    requires var pc := After(n, turns[..j]).pcs[t]; pc == Found(p) || pc == Checked(p)
    ensures i < j && turns[i] == Turn(t, Look(p)) && p in After(n, turns[..i]).active
    ensures forall k: nat :: LastRelease(n, turns, k, p) ==> i < k
  {
    hide LastRelease, After, Step, Frees;
    NobodyStartsThere(n, turns);
    i := j - 1;
    AfterNext(n, turns, i);
    var s, turn := After(n, turns[..i]), turns[i];
    if s.pcs[t] == Found(p) || s.pcs[t] == Checked(p) {
      i := FoundWhenListed(n, turns, i, t, p);
    } else {
      OnlyLookFinds(s, turn.thread, turn.choice, t, p);
      HistoryTells(n, turns, i, p);
      NotTheLast(n, turns, i, p);
    }
  }

  lemma NobodyStartsThere(n: nat, turns: seq<Turn>)
    ensures forall t: nat :: t < n ==> After(n, turns[..0]).pcs[t].Idle?
  {
  }

  lemma OnlyLookFinds(s: Table, t: nat, c: Choice, u: nat, p: Ptr)
    requires t < |s.pcs| == |s.hands| && u < |s.pcs|
    ensures var was, pc := s.pcs[u], Step(s, t, c).pcs[u];
            (pc == Found(p) || pc == Checked(p)) && !(was == Found(p) || was == Checked(p)) ==>
              t == u && c == Look(p) && p in s.active
  {
  }

  lemma NotTheLast(n: nat, turns: seq<Turn>, i: nat, p: Ptr)
    requires i < |turns| && turns[i].choice != Release(p)
    ensures !LastRelease(n, turns, i, p)
  {
  }

  /** Who has found `p` and not yet taken its reference. */
  ghost predicate Using(s: Table, t: nat, p: Ptr)
    requires t < |s.pcs|
  {
    s.pcs[t] == Found(p) || s.pcs[t] == Checked(p)
  }

  ghost predicate SomebodyHolds(s: Table, p: Ptr) {
    exists u :: 0 <= u < |s.hands| && p in s.hands[u]
  }

  /** Whoever keeps a reference until the import has taken its own rules the race out. */
  lemma {:induction false} HoldersProtect(n: nat, turns: seq<Turn>, m: nat)
    requires m <= |turns|
    requires forall j: nat, t: nat, p: Ptr :: j < m && t < n && Using(After(n, turns[..j]), t, p) ==>
               SomebodyHolds(After(n, turns[..j]), p)
    ensures Sound(After(n, turns[..m]))
  {
    hide Sound, Late, Fresh, Step, After, Using, SomebodyHolds;
    if m == 0 {
      AtTheStart(n, turns);
    } else {
      var s, turn := After(n, turns[..m - 1]), turns[m - 1];
      HoldersProtect(n, turns, m - 1);
      RunKeepsFresh(n, turns, m - 1);
      AfterNext(n, turns, m - 1);
      if turn.thread < n {
        HeldIsNotLate(s, turn.thread);
        StepIsSound(s, turn.thread, turn.choice);
      }
    }
  }

  lemma AtTheStart(n: nat, turns: seq<Turn>)
    ensures Sound(After(n, turns[..0])) && forall t: nat, p: Ptr :: t < n ==> !Using(After(n, turns[..0]), t, p)
  {
    StartIsSound(n);
  }

  lemma HeldIsNotLate(s: Table, t: nat)
    requires Sound(s) && t < |s.pcs|
    requires forall p: Ptr :: Using(s, t, p) ==> SomebodyHolds(s, p)
    ensures !Late(s, t)
  {
    hide Held;
    match s.pcs[t] {
      case Found(p) => assert Using(s, t, p);
      case Checked(p) => assert Using(s, t, p);
      case _ =>
    }
  }

  /** With no step of another thread between the lookup and the reference there is no race: this is how the
      module registry is followed. */
  lemma {:induction false} UndisturbedIsSound(n: nat, turns: seq<Turn>, m: nat)
    requires m <= |turns|
    requires forall j: nat, t: nat, p: Ptr :: j < m && t < n && Using(After(n, turns[..j]), t, p) ==>
               turns[j].thread == t
    ensures Sound(After(n, turns[..m]))
    ensures forall t: nat, p: Ptr :: t < n && Using(After(n, turns[..m]), t, p) ==> p in After(n, turns[..m]).active
  {
    hide Sound, Late, Fresh, Step, After, Using;
    if m == 0 {
      AtTheStart(n, turns);
    } else {
      var s, turn := After(n, turns[..m - 1]), turns[m - 1];
      UndisturbedIsSound(n, turns, m - 1);
      RunKeepsFresh(n, turns, m - 1);
      AfterNext(n, turns, m - 1);
      if turn.thread < n {
        ListedIsNotLate(s, turn.thread);
        StepIsSound(s, turn.thread, turn.choice);
        forall t: nat, p: Ptr | t < n && Using(After(n, turns[..m]), t, p) ensures p in After(n, turns[..m]).active {
          StillListed(s, turn.thread, turn.choice, t, p);
        }
      }
    }
  }

  lemma ListedIsNotLate(s: Table, t: nat)
    requires Sound(s) && t < |s.pcs| && forall p: Ptr :: Using(s, t, p) ==> p in s.active
    ensures !Late(s, t)
  {
    hide Held;
    match s.pcs[t] {
      case Found(p) => assert Using(s, t, p);
      case Checked(p) => assert Using(s, t, p);
      case _ =>
    }
  }

  lemma StillListed(s: Table, t: nat, c: Choice, u: nat, p: Ptr)
    requires t < |s.pcs| == |s.hands| && u < |s.pcs| && Using(Step(s, t, c), u, p)
    requires Using(s, u, p) ==> u == t && p in s.active
    ensures p in Step(s, t, c).active
  {
  }

  /** An import that is not disturbed gets its reference: found, read, and one reference more in hand. */
  lemma ImportCompletes(s: Table, t: nat, p: Ptr, go: Choice, go': Choice)
    requires Fresh(s) && Sound(s) && t < |s.pcs| == |s.hands| && s.pcs[t].Idle? && p in s.active && !go.GiveUp?
    ensures var s' := Step(Step(Step(s, t, Look(p)), t, go), t, go');
            && s'.pcs[t].Idle? && s'.active == s.active && p in s'.count
            && s'.hands[t] == s.hands[t] + multiset{p} && s'.count[p] == Held(s'.hands, p) == Held(s.hands, p) + 1
  {
    hide Held;
    HeldOne(s.hands, t, p);
  }

  /** Lookup and reference in one locked section do the same at once. */
  lemma ReferenceCompletes(s: Table, t: nat, p: Ptr)
    requires Sound(s) && t < |s.pcs| == |s.hands| && s.pcs[t].Idle?
    ensures var s' := Step(s, t, Reference(p));
            if p in s.active then s'.hands[t] == s.hands[t] + multiset{p} && s'.active == s.active && p in s'.count
                                  && s'.count[p] == Held(s.hands, p) + 1
            else s' == s
  {
    hide Held;
  }

  /** The last release takes the module off the list, and the next step frees its record; any other release only
      gives the reference up. */
  lemma ReleaseCompletes(s: Table, t: nat, p: Ptr, go: Choice)
    requires Fresh(s) && Sound(s) && t < |s.pcs| == |s.hands| && s.pcs[t].Idle? && p in s.hands[t]
    ensures var s' := Step(s, t, Release(p));
            && s'.hands[t] == s.hands[t] - multiset{p}
            && if Held(s.hands, p) == 1 then p !in s'.active && p in s'.count && p !in Step(s', t, go).count
               else s'.pcs[t].Idle? && p in s'.active && p in s'.count && s'.count[p] == Held(s.hands, p) - 1
  {
    hide Held;
    HeldOne(s.hands, t, p);
  }

  /** Two threads: one finds the module, the other gives back the last reference and frees it, and the first
      takes its reference in a record that is gone; or takes it in time for the record to be freed under it. */
  lemma TheRaceIsReal()
    ensures var turns := [Turn(1, Load), Turn(0, Look(0)), Turn(0, Load), Turn(1, Release(0)), Turn(1, Load),
                          Turn(0, Load)];
            After(2, turns).pcs[0] == Fault
    ensures var turns := [Turn(1, Load), Turn(0, Look(0)), Turn(0, Load), Turn(1, Release(0)), Turn(0, Load),
                          Turn(1, Load)];
            var s := After(2, turns);
            s.pcs == [Idle, Idle] && 0 in s.hands[0] && 0 !in s.count
  {
    hide After, Step;
    var turns := [Turn(1, Load), Turn(0, Look(0)), Turn(0, Load), Turn(1, Release(0)), Turn(1, Load), Turn(0, Load)];
    var turns' := [Turn(1, Load), Turn(0, Look(0)), Turn(0, Load), Turn(1, Release(0)), Turn(0, Load), Turn(1, Load)];
    FirstTurns(turns);
    FirstTurns(turns');
    FreedFirst();
    TakenFirst();
    AfterNext(2, turns, 4);
    AfterNext(2, turns, 5);
    AfterNext(2, turns', 4);
    AfterNext(2, turns', 5);
    assert turns[..6] == turns && turns'[..6] == turns';
  }

  /** Thread 0 has found and read the record, thread 1 has just taken it off the list. */
  const UNLISTED := Table({}, map[0 := 0], 1, [multiset{}, multiset{}], [Checked(0), Freeing(0)])

  lemma FreedFirst()
    ensures Step(Step(UNLISTED, 1, Load), 0, Load).pcs[0] == Fault
  {
  }

  lemma TakenFirst()
    ensures var s := Step(Step(UNLISTED, 0, Load), 1, Load);
            s.pcs == [Idle, Idle] && 0 in s.hands[0] && 0 !in s.count
  {
  }

  lemma FirstTurns(turns: seq<Turn>)
    requires |turns| >= 4 && turns[..4] == [Turn(1, Load), Turn(0, Look(0)), Turn(0, Load), Turn(1, Release(0))]
    ensures After(2, turns[..4]) == UNLISTED
  {
    hide After, Step;
    assert turns[0] == turns[..4][0] && turns[1] == turns[..4][1] && turns[2] == turns[..4][2]
           && turns[3] == turns[..4][3];
    EmptyStart(turns);
    AfterNext(2, turns, 0);
    AfterNext(2, turns, 1);
    AfterNext(2, turns, 2);
    AfterNext(2, turns, 3);
    FoundByOne();
    ReleasedByOther();
  }

  const LOADED := Table({0}, map[0 := 1], 1, [multiset{}, multiset{0}], [Idle, Idle])

  lemma EmptyStart(turns: seq<Turn>)
    ensures After(2, turns[..0]) == Threads(2)
  {
  }

  lemma FoundByOne()
    ensures Step(Threads(2), 1, Load) == LOADED
    ensures Step(LOADED, 0, Look(0)) == LOADED.(pcs := [Found(0), Idle])
  {
    assert multiset{} + multiset{0} == multiset{0};
  }

  lemma ReleasedByOther()
    ensures Step(LOADED.(pcs := [Found(0), Idle]), 0, Load) == LOADED.(pcs := [Checked(0), Idle])
    ensures Step(LOADED.(pcs := [Checked(0), Idle]), 1, Release(0)) == UNLISTED
  {
    assert multiset{0} - multiset{0} == multiset{};
  }
}
