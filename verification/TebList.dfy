/** The list of thread environment blocks and the fiber-local storage in it: FlsFree's walk around the
    ring under rundown protection, and the teardown of the whole list at shutdown. */
module TebList {
  import opened Wrappers

  // ---------------------------------------------------------------- LIST_ENTRY

  /** A LIST_ENTRY; `owner` is what CONTAINING_RECORD finds, null for a list head. */
  class Link {
    var flink: Link?
    var blink: Link?
    const owner: Teb?

    constructor (owner: Teb?)
      ensures this.owner == owner && flink == null && blink == null
    {
      this.owner := owner;
      flink, blink := null, null;
    }
  }

  /** `nodes` in order, between `head` and `head`. */
  ghost predicate Ring(head: Link, nodes: seq<Link>)
    reads head, nodes
  {
    && head !in nodes
    && (forall i, j :: 0 <= i < j < |nodes| ==> nodes[i] != nodes[j])
    && head.flink == (if nodes == [] then head else nodes[0])
    && head.blink == (if nodes == [] then head else nodes[|nodes| - 1])
    && (forall i {:trigger nodes[i].flink} :: 0 <= i < |nodes| ==>
          nodes[i].flink == if i + 1 < |nodes| then nodes[i + 1] else head)
    && (forall i {:trigger nodes[i].blink} :: 0 <= i < |nodes| ==>
          nodes[i].blink == if i > 0 then nodes[i - 1] else head)
  }

  /** InitializeListHead */
  method InitializeListHead(head: Link)
    modifies head
    ensures Ring(head, [])
  {
    head.flink, head.blink := head, head;
  }

  /** InsertHeadList, as LdkCreateTeb adds a TEB. */
  method InsertHead(head: Link, entry: Link, ghost nodes: seq<Link>)
    requires Ring(head, nodes) && entry != head && entry !in nodes
    modifies head, entry, nodes
    ensures Ring(head, [entry] + nodes)
  {
    var next := head.flink;
    entry.flink := next;
    entry.blink := head;
    next.blink := entry;
    head.flink := entry;
  }

  /** RemoveHeadList: on an empty list the head itself comes back. */
  method RemoveHead(head: Link, ghost nodes: seq<Link>) returns (entry: Link)
    requires Ring(head, nodes)
    modifies head, nodes
    ensures nodes == [] ==> entry == head && Ring(head, [])
    ensures nodes != [] ==> entry == nodes[0] && Ring(head, nodes[1..])
  {
    entry := head.flink;
    var next := entry.flink;
    head.flink := next;
    next.blink := head;
  }

  /** The four pointer writes of LdkpTerminateTebMap: the whole ring, the empty one included, hangs on
      the local head afterwards, in the same order. */
  method MoveList(head: Link, local: Link, ghost nodes: seq<Link>)
    requires Ring(head, nodes) && local != head && local !in nodes
    modifies head, local, nodes
    ensures Ring(local, nodes) && Ring(head, [])
  {
    head.blink.flink := local;
    local.blink := head.blink;
    head.flink.blink := local;
    local.flink := head.flink;
    InitializeListHead(head);
  }

  // ---------------------------------------------------------------- TEBs

  /** The parts of a TEB that fiber-local storage uses.  A slot or callback of zero is NULL. */
  class Teb {
    var links: Link?
    var fls: seq<nat>
    /** Holders of rundown protection. */
    var protectors: nat
    /** Set once the owner waits for the protection to be released for good. */
    var runningDown: bool

    constructor ()
      ensures links != null && fresh(links) && links.owner == this
      ensures |fls| == FLS_SLOTS && protectors == 0 && !runningDown
      ensures forall i :: 0 <= i < FLS_SLOTS ==> fls[i] == 0
    {
      fls := seq(FLS_SLOTS, _ => 0);
      protectors := 0;
      runningDown := false;
      new;
      links := new Link(this);
    }

    /** ExAcquireRundownProtection */
    method Acquire() returns (ok: bool)
      modifies this`protectors
      ensures ok == !runningDown
      ensures protectors == if ok then old(protectors) + 1 else old(protectors)
    {
      ok := !runningDown;
      if ok {
        protectors := protectors + 1;
      }
    }

    /** ExReleaseRundownProtection */
    method Release()
      requires protectors > 0
      modifies this`protectors
      ensures protectors == old(protectors) - 1
    {
      protectors := protectors - 1;
    }

    /** ExWaitForRundownProtectionRelease: from now on whoever asks for the protection is refused, and the
        wait ends when all who hold it have released it; `waited` counts them. */
    method AwaitRelease() returns (waited: nat)
      modifies this`protectors, this`runningDown
      ensures runningDown && protectors == 0 && waited == old(protectors)
    {
      runningDown := true;
      waited := 0;
      while protectors > 0
        invariant runningDown && waited + protectors == old(protectors)
      {
        var asks := *;
        if asks {
          var granted := Acquire();
          assert !granted;
        }
        Release();
        waited := waited + 1;
      }
    }

    /** InterlockedExchangePointer( &FlsSlots[index], NULL ) */
    method TakeSlot(index: nat) returns (data: nat)
      requires index < |fls|
      modifies this`fls
      ensures data == old(fls[index]) && fls == old(fls)[index := 0]
    {
      data := fls[index];
      fls := fls[index := 0];
    }
  }

  /** `nodes` are the links of `tebs`, which have all their slots. */
  ghost predicate LinksOf(nodes: seq<Link>, tebs: seq<Teb>)
    reads tebs
  {
    && |nodes| == |tebs|
    && (forall i :: 0 <= i < |tebs| ==>
          nodes[i].owner == tebs[i] && tebs[i].links == nodes[i] && |tebs[i].fls| == FLS_SLOTS)
    && (forall i, j :: 0 <= i < j < |tebs| ==> tebs[i] != tebs[j])
  }

  lemma LinksOfMore(nodes: seq<Link>, tebs: seq<Teb>, teb: Teb)
    requires LinksOf(nodes, tebs) && teb !in tebs && teb.links != null && teb.links.owner == teb
             && |teb.fls| == FLS_SLOTS
    ensures LinksOf([teb.links] + nodes, [teb] + tebs) && teb.links !in nodes
  {
    forall i | 0 <= i < |nodes| ensures nodes[i] != teb.links {
      assert nodes[i].owner == tebs[i];
    }
  }

  // ---------------------------------------------------------------- values

  /** The calls owed for the values of one slot, one TEB after the other. */
  function CallsFor(callback: nat, values: seq<nat>): seq<Call> {
    if values == [] then []
    else CallsFor(callback, values[..|values| - 1]) +
         (if values[|values| - 1] != 0 then [Call(callback, values[|values| - 1])] else [])
  }

  /** Where a walk around a ring of `size` that starts at `k` is after `n` steps. */
  function Around(k: nat, n: nat, size: nat): (r: nat)
    requires k < size && n <= size
    ensures r < size
  {
    if k + n < size then k + n else k + n - size
  }

  /** How many steps that walk takes to reach position `i`. */
  function StepsTo(k: nat, i: nat, size: nat): (r: nat)
    requires k < size && i < size
    ensures r < size && Around(k, r, size) == i
  {
    if i >= k then i - k else i + size - k
  }

  /** The state of a walk: `rows`, `counts` and `downs` are the slots, the rundown counts and who is running
      down at its start; the TEBs met in the first `done` steps are cleared, and only the one at `here` is
      protected for the walk. */
  ghost predicate Swept(tebs: seq<Teb>, rows: seq<seq<nat>>, counts: seq<nat>, downs: seq<bool>,
                        index: nat, k: nat, done: nat, here: nat)
    requires k < |tebs|
    reads tebs
  {
    && |rows| == |counts| == |downs| == |tebs| && index < FLS_SLOTS
    && (forall i :: 0 <= i < |tebs| ==>
          && |rows[i]| == FLS_SLOTS && tebs[i].runningDown == downs[i]
          && tebs[i].fls == (if StepsTo(k, i, |tebs|) < done then rows[i][index := 0] else rows[i])
          && tebs[i].protectors == counts[i] + (if i == here then 1 else 0))
  }

  /** How many TEBs a walk from `k` meets, once it has met `n`: it goes on to the first that runs down. */
  function Met(downs: seq<bool>, k: nat, n: nat): (r: nat)
    requires k < |downs| && n <= |downs|
    ensures n <= r <= |downs|
    decreases |downs| - n
  {
    if n == |downs| || (n > 0 && downs[Around(k, n, |downs|)]) then n else Met(downs, k, n + 1)
  }

  /** The walk gets all the way around exactly if no TEB but perhaps its first is running down. */
  lemma {:induction false} MetAll(downs: seq<bool>, k: nat, n: nat)
    requires k < |downs| && n <= |downs|
    ensures Met(downs, k, n) == |downs| <==>
            forall m :: n <= m < |downs| && m > 0 ==> !downs[Around(k, m, |downs|)]
    decreases |downs| - n
  {
    if n < |downs| && !(n > 0 && downs[Around(k, n, |downs|)]) {
      MetAll(downs, k, n + 1);
    }
  }

  lemma FaultMeansDown(downs: seq<bool>, k: nat)
    requires k < |downs| && !downs[k]
    ensures Met(downs, k, 0) < |downs| <==> exists i :: 0 <= i < |downs| && downs[i]
  {
    MetAll(downs, k, 0);
    AroundFacts(k, 0, |downs|);
    if i :| 0 <= i < |downs| && downs[i] {
      var m := StepsTo(k, i, |downs|);
      assert downs[Around(k, m, |downs|)];
    }
  }

  lemma AroundFacts(k: nat, n: nat, size: nat)
    requires k < size && n < size
    ensures Around(k, 0, size) == k == Around(k, size, size)
    ensures n > 0 ==> Around(k, n, size) != k
    ensures StepsTo(k, Around(k, n, size), size) == n
    ensures Around(Around(k, n, size), 1, size) == Around(k, n + 1, size)
    ensures forall i :: 0 <= i < size ==>
              (StepsTo(k, i, size) < n + 1 <==> StepsTo(k, i, size) < n || i == Around(k, n, size))
  {
  }

  ghost function Rows(tebs: seq<Teb>): (r: seq<seq<nat>>)
    reads tebs
    ensures |r| == |tebs| && forall i :: 0 <= i < |tebs| ==> r[i] == tebs[i].fls
  {
    seq(|tebs|, i requires 0 <= i < |tebs| reads tebs => tebs[i].fls)
  }

  ghost function Downs(tebs: seq<Teb>): (r: seq<bool>)
    reads tebs
    ensures |r| == |tebs| && forall i :: 0 <= i < |tebs| ==> r[i] == tebs[i].runningDown
  {
    seq(|tebs|, i requires 0 <= i < |tebs| reads tebs => tebs[i].runningDown)
  }

  ghost function Counts(tebs: seq<Teb>): (r: seq<nat>)
    reads tebs
    ensures |r| == |tebs| && forall i :: 0 <= i < |tebs| ==> r[i] == tebs[i].protectors
  {
    seq(|tebs|, i requires 0 <= i < |tebs| reads tebs => tebs[i].protectors)
  }

  /** The values of one slot in the order of a walk that starts at `k`. */
  function Column(rows: seq<seq<nat>>, k: nat, index: nat): (r: seq<nat>)
    requires k < |rows| && forall i :: 0 <= i < |rows| ==> index < |rows[i]|
    ensures |r| == |rows| && forall n :: 0 <= n < |rows| ==> r[n] == rows[Around(k, n, |rows|)][index]
  {
    seq(|rows|, n requires 0 <= n < |rows| => rows[Around(k, n, |rows|)][index])
  }

  // ---------------------------------------------------------------- the walk as a value

  lemma MetFirst(downs: seq<bool>, k: nat)
    requires k < |downs|
    ensures Met(downs, k, 0) == Met(downs, k, 1) >= 1
  {
  }

  lemma MetSome(downs: seq<bool>, k: nat)
    requires k < |downs|
    ensures Met(downs, k, 0) >= 1
  {
    MetFirst(downs, k);
  }

  /** After `n + 1` TEBs the walk ends at one that runs down, or goes on. */
  lemma MetNext(downs: seq<bool>, k: nat, n: nat)
    requires k < |downs| && n < |downs| && (n > 0 ==> !downs[Around(k, n, |downs|)])
    ensures Met(downs, k, if n == 0 then 1 else n) == Met(downs, k, n + 1)
    ensures n + 1 < |downs| && downs[Around(k, n + 1, |downs|)] ==> Met(downs, k, n + 1) == n + 1
  {
  }

  lemma MetEnd(downs: seq<bool>, k: nat)
    requires k < |downs|
    ensures Met(downs, k, |downs|) == |downs|
  {
  }

  /** The slots of the first `walked` TEBs are cleared at this index, and nothing else is. */
  ghost predicate AreCleared(tebs: seq<Teb>, rows: seq<seq<nat>>, index: nat, k: nat, walked: nat)
    requires k < |tebs| && |rows| == |tebs|
    reads tebs
  {
    forall i :: 0 <= i < |tebs| ==>
      tebs[i].fls == if StepsTo(k, i, |tebs|) < walked && index < |rows[i]| then rows[i][index := 0] else rows[i]
  }

  /** The calls a walk over that many TEBs makes. */
  ghost function Delivered(callback: nat, rows: seq<seq<nat>>, index: nat, k: nat, walked: nat): seq<Call> {
    if k < |rows| && (forall i :: 0 <= i < |rows| ==> index < |rows[i]|) && walked <= |rows|
    then CallsFor(callback, Column(rows, k, index)[..walked]) else []
  }

  /** How many TEBs a walk from `k` meets: none if the first runs down, else those before the next that does. */
  function WalkMeets(downs: seq<bool>, k: nat): nat
    requires k < |downs|
  {
    if downs[k] then 0 else Met(downs, k, 0)
  }

  function WalkEnds(downs: seq<bool>, k: nat): Freeing
    requires k < |downs|
  {
    if downs[k] then OwnTebRunsDown else if Met(downs, k, 0) == |downs| then Done else NullTeb
  }

  /** The walk succeeds exactly if no TEB is running down, and then it meets them all. */
  lemma WalkSucceeds(downs: seq<bool>, k: nat)
    requires k < |downs|
    ensures WalkEnds(downs, k) == Done <==> forall i :: 0 <= i < |downs| ==> !downs[i]
    ensures WalkEnds(downs, k) == Done ==> WalkMeets(downs, k) == |downs|
  {
    hide Met;
    if !downs[k] {
      FaultMeansDown(downs, k);
    }
  }

  lemma NothingWalked(tebs: seq<Teb>, index: nat, k: nat)
    requires k < |tebs|
    ensures AreCleared(tebs, Rows(tebs), index, k, 0)
  {
  }

  /** With nobody protected for the walk, only slots have changed. */
  lemma NoneProtected(tebs: seq<Teb>, rows: seq<seq<nat>>, counts: seq<nat>, downs: seq<bool>, index: nat, k: nat,
                      met: nat)
    requires k < |tebs| && Swept(tebs, rows, counts, downs, index, k, met, |tebs|)
    ensures Counts(tebs) == counts && Downs(tebs) == downs
    ensures forall i :: 0 <= i < |tebs| ==>
              tebs[i].fls == if StepsTo(k, i, |tebs|) < met then rows[i][index := 0] else rows[i]
  {
    assert forall i :: 0 <= i < |tebs| ==> tebs[i].protectors == counts[i] && tebs[i].runningDown == downs[i];
  }

  // ---------------------------------------------------------------- fiber-local storage

  /** How FlsFree ends; with a null TEB it does not come back. */
  datatype Freeing = Done | NotAllocated | OwnTebRunsDown | NullTeb

  class Fls {
    /** LdkpTebListHead; as ghosts, what hangs on it. */
    var head: Link
    ghost var nodes: seq<Link>
    ghost var tebs: seq<Teb>
    /** The bitmap and callback table in the PEB. */
    var bitmap: set<nat>
    var callbacks: seq<nat>
    /** The calls made so far. */
    var calls: seq<Call>
    /** LdkpTemporaryTebListHead, newest first: TEBs made while LDK shuts down. */
    var temporary: seq<Teb>

    constructor (head: Link)
      requires Ring(head, []) && head.owner == null
      ensures Valid() && Apart() && tebs == [] && bitmap == {} && calls == [] && temporary == []
    {
      this.head := head;
      nodes, tebs := [], [];
      bitmap, calls, temporary := {}, [], [];
      callbacks := seq(FLS_SLOTS, _ => 0);
    }

    ghost predicate Valid()
      reads this, head, nodes, tebs
    {
      && Ring(head, nodes) && LinksOf(nodes, tebs) && head.owner == null
      && |callbacks| == FLS_SLOTS
      && (forall b :: b in bitmap ==> b < FLS_SLOTS)
    }

    /** LdkCreateTeb */
    method CreateTeb() returns (teb: Teb)
      requires Valid()
      modifies this, head, nodes
      ensures Valid() && fresh(teb) && tebs == [teb] + old(tebs)
      ensures teb.protectors == 0 && !teb.runningDown && forall i :: 0 <= i < FLS_SLOTS ==> teb.fls[i] == 0
      ensures head == old(head) && bitmap == old(bitmap) && callbacks == old(callbacks) && calls == old(calls)
    {
      hide Ring, LinksOf;
      teb := new Teb();
      LinksOfMore(nodes, tebs, teb);
      InsertHead(head, teb.links, nodes);
      nodes := [teb.links] + nodes;
      tebs := [teb] + tebs;
    }

    /** LdkGetNextTebRundownProtection: the next TEB around the ring, protected in place of this one;
        null when that TEB is running down. */
    method NextTeb(teb: Teb, ghost k: nat) returns (next: Teb?)
      requires Valid() && k < |tebs| && tebs[k] == teb && teb.protectors > 0
      modifies tebs
      ensures Valid()
      ensures next == if old(tebs[Around(k, 1, |tebs|)].runningDown) then null else tebs[Around(k, 1, |tebs|)]
      ensures forall i :: 0 <= i < |tebs| ==>
                && tebs[i].fls == old(tebs[i].fls) && tebs[i].runningDown == old(tebs[i].runningDown)
                && tebs[i].protectors == old(tebs[i].protectors) - (if i == k then 1 else 0)
                                         + (if next != null && i == Around(k, 1, |tebs|) then 1 else 0)
    {
      var succ: Teb;
      if teb.links.flink == head {
        succ := head.flink.owner;
      } else {
        succ := teb.links.flink.owner;
      }
      assert succ == tebs[Around(k, 1, |tebs|)];
      teb.Release();
      var ok := succ.Acquire();
      next := if ok then succ else null;
    }

    /** FlsFree.  The caller's TEB is at `k`.  With a callback, the walk gets around and the bit is cleared
        exactly if no TEB is running down.  If the caller's own is, the callback is gone and the bit stays; if
        another is, the walk has cleared the TEBs before it and goes on with a null pointer. */
    method FlsFree(index: nat, current: Teb, ghost k: nat) returns (result: Freeing)
      requires Valid() && k < |tebs| && tebs[k] == current
      modifies this`bitmap, this`callbacks, this`calls, tebs
      ensures Valid() && Counts(tebs) == old(Counts(tebs)) && Downs(tebs) == old(Downs(tebs))
      ensures result == if index !in old(bitmap) then NotAllocated
                        else if old(callbacks)[index] == 0 then Done
                        else WalkEnds(old(Downs(tebs)), k)
      ensures bitmap == if result == Done then old(bitmap) - {index} else old(bitmap)
      ensures callbacks == if index in old(bitmap) then old(callbacks)[index := 0] else old(callbacks)
      ensures var walked := if index in old(bitmap) && old(callbacks)[index] != 0
                            then WalkMeets(old(Downs(tebs)), k) else 0;
              && AreCleared(tebs, old(Rows(tebs)), index, k, walked)
              && calls == old(calls) + (if walked == 0 then []
                                        else Delivered(old(callbacks)[index], old(Rows(tebs)), index, k, walked))
    {
      hide Ring, LinksOf, AreCleared, Delivered, WalkEnds, WalkMeets;
      result := NotAllocated;
      NothingWalked(tebs, index, k);
      if index in bitmap {
        var callback := callbacks[index];
        callbacks := callbacks[index := 0];
        result := Done;
        if callback != 0 {
          result := RunCallback(index, callback, current, k);
        }
        if result == Done {
          bitmap := bitmap - {index};
        }
      }
    }

    /** The part of FlsFree that a callback takes. */
    method RunCallback(index: nat, callback: nat, current: Teb, ghost k: nat) returns (result: Freeing)
      requires Valid() && k < |tebs| && tebs[k] == current && index < FLS_SLOTS && callback != 0
      modifies this`calls, tebs
      ensures Valid() && Counts(tebs) == old(Counts(tebs)) && Downs(tebs) == old(Downs(tebs))
      ensures result == WalkEnds(old(Downs(tebs)), k)
      ensures var walked := WalkMeets(old(Downs(tebs)), k);
              && AreCleared(tebs, old(Rows(tebs)), index, k, walked)
              && calls == old(calls) +
                          (if walked == 0 then [] else Delivered(callback, old(Rows(tebs)), index, k, walked))
    {
      hide Ring, CallsFor, Met, Around, StepsTo;
      if current.runningDown {
        return OwnTebRunsDown;
      }
      MetSome(Downs(tebs), k);
      var around := Walk(index, callback, current, k);
      result := if around then Done else NullTeb;
    }

    /** What FlsFree does with a callback: protect the own TEB, go around, let go of it. */
    method Walk(index: nat, callback: nat, current: Teb, ghost k: nat) returns (around: bool)
      requires Valid() && index < FLS_SLOTS && k < |tebs| && tebs[k] == current && !current.runningDown
      modifies this`calls, tebs
      ensures Valid() && Counts(tebs) == old(Counts(tebs)) && Downs(tebs) == old(Downs(tebs))
      ensures around <==> Met(old(Downs(tebs)), k, 0) == |tebs|
      ensures forall i :: 0 <= i < |tebs| ==>
                tebs[i].fls == if StepsTo(k, i, |tebs|) < Met(old(Downs(tebs)), k, 0)
                               then old(tebs[i].fls)[index := 0] else old(tebs[i].fls)
      ensures calls == old(calls) + CallsFor(callback, Column(old(Rows(tebs)), k, index)[..Met(old(Downs(tebs)), k, 0)])
    {
      hide Ring, CallsFor, Swept, Around, StepsTo, Met;
      ghost var rows, counts, downs := Rows(tebs), Counts(tebs), Downs(tebs);
      AroundFacts(k, 0, |tebs|);
      Begin(index, current, k, rows, counts, downs);
      around := Loop(index, callback, current, k, rows, counts, downs);
      if around {
        Finish(index, current, k, rows, counts, downs);
      }
      NoneProtected(tebs, rows, counts, downs, index, k, Met(downs, k, 0));
    }

    method Finish(ghost index: nat, current: Teb, ghost k: nat,
                 ghost rows: seq<seq<nat>>, ghost counts: seq<nat>, ghost downs: seq<bool>)
      requires Valid() && index < FLS_SLOTS && k < |tebs| && tebs[k] == current
      requires Swept(tebs, rows, counts, downs, index, k, |tebs|, k)
      modifies current
      ensures Valid() && Swept(tebs, rows, counts, downs, index, k, |tebs|, |tebs|)
    {
      hide Ring;
      current.Release();
    }

    method Begin(ghost index: nat, current: Teb, ghost k: nat,
                 ghost rows: seq<seq<nat>>, ghost counts: seq<nat>, ghost downs: seq<bool>)
      requires Valid() && index < FLS_SLOTS && k < |tebs| && tebs[k] == current && !current.runningDown
      requires rows == Rows(tebs) && counts == Counts(tebs) && downs == Downs(tebs)
      modifies current
      ensures Valid() && Swept(tebs, rows, counts, downs, index, k, 0, k)
    {
      hide Ring;
      var _ := current.Acquire();
    }

    /** do ... while (Teb != InitialTeb) */
    method Loop(index: nat, callback: nat, current: Teb, ghost k: nat,
                ghost rows: seq<seq<nat>>, ghost counts: seq<nat>, ghost downs: seq<bool>) returns (around: bool)
      requires Valid() && k < |tebs| && tebs[k] == current && |downs| == |tebs| && !downs[k]
      requires |rows| == |tebs| && forall i :: 0 <= i < |rows| ==> index < |rows[i]|
      requires Swept(tebs, rows, counts, downs, index, k, 0, k)
      modifies this`calls, tebs
      ensures Valid() && Swept(tebs, rows, counts, downs, index, k, Met(downs, k, 0), if around then k else |tebs|)
      ensures around <==> Met(downs, k, 0) == |tebs|
      ensures calls == old(calls) + CallsFor(callback, Column(rows, k, index)[..Met(downs, k, 0)])
    {
      hide Ring, CallsFor, Swept, Around, StepsTo, Met;
      ghost var column := Column(rows, k, index);
      CallsGrow(callback, column);
      AroundFacts(k, 0, |tebs|);
      MetFirst(downs, k);
      var teb := current;
      var first := true;
      ghost var n := 0;
      while first || teb != current
        invariant Valid() && n <= |tebs| && (first <==> n == 0) && teb == tebs[Around(k, n, |tebs|)]
        invariant Swept(tebs, rows, counts, downs, index, k, n, Around(k, n, |tebs|))
        invariant Met(downs, k, 0) == Met(downs, k, if n == 0 then 1 else n)
        invariant n > 0 && n < |tebs| ==> !downs[Around(k, n, |tebs|)]
        invariant calls == old(calls) + CallsFor(callback, column[..n])
        decreases |tebs| - n
      {
        AroundFacts(k, if n < |tebs| then n else 0, |tebs|);
        MetNext(downs, k, n);
        CallsNext(callback, column, n);
        var next := VisitAndAdvance(index, callback, teb, k, n, rows, counts, downs);
        if next == null {
          return false;
        }
        teb := next;
        first := false;
        n := n + 1;
      }
      if n < |tebs| {
        AroundFacts(k, n, |tebs|);
      }
      MetEnd(downs, k);
      around := true;
    }

    /** One round of that loop. */
    method VisitAndAdvance(index: nat, callback: nat, teb: Teb, ghost k: nat, ghost n: nat,
                           ghost rows: seq<seq<nat>>, ghost counts: seq<nat>, ghost downs: seq<bool>)
      returns (next: Teb?)
      requires Valid() && k < |tebs| && n < |tebs| && tebs[Around(k, n, |tebs|)] == teb
      requires Swept(tebs, rows, counts, downs, index, k, n, Around(k, n, |tebs|))
      modifies this`calls, tebs
      ensures Valid() && |downs| == |tebs|
      ensures next == if downs[Around(k, n + 1, |tebs|)] then null else tebs[Around(k, n + 1, |tebs|)]
      ensures var here := if next == null then |tebs| else Around(k, n + 1, |tebs|);
              Swept(tebs, rows, counts, downs, index, k, n + 1, here)
      ensures var data := rows[Around(k, n, |tebs|)][index];
              calls == old(calls) + (if data != 0 then [Call(callback, data)] else [])
    {
      hide Ring, LinksOf, Around, StepsTo, Swept;
      Visit(index, callback, teb, k, n, rows, counts, downs);
      next := Advance(index, teb, k, n, rows, counts, downs);
    }

    /** Empty the slot; a value found there is handed to the callback. */
    method Visit(index: nat, callback: nat, teb: Teb, ghost k: nat, ghost n: nat,
                 ghost rows: seq<seq<nat>>, ghost counts: seq<nat>, ghost downs: seq<bool>)
      requires Valid() && k < |tebs| && n < |tebs| && tebs[Around(k, n, |tebs|)] == teb
      requires Swept(tebs, rows, counts, downs, index, k, n, Around(k, n, |tebs|))
      modifies this`calls, teb
      ensures Valid() && Swept(tebs, rows, counts, downs, index, k, n + 1, Around(k, n, |tebs|))
      ensures var data := rows[Around(k, n, |tebs|)][index];
              calls == old(calls) + (if data != 0 then [Call(callback, data)] else [])
    {
      hide Ring, LinksOf, Around, StepsTo;
      AroundFacts(k, n, |tebs|);
      var data := TakeAt(index, teb, Around(k, n, |tebs|));
      if data != 0 {
        calls := calls + [Call(callback, data)];
      }
    }

    /** The exchange at one TEB leaves the others alone. */
    method TakeAt(index: nat, teb: Teb, ghost a: nat) returns (data: nat)
      requires Valid() && a < |tebs| && tebs[a] == teb && index < FLS_SLOTS && index < |teb.fls|
      modifies teb`fls
      ensures Valid() && data == old(teb.fls[index])
      ensures forall i :: 0 <= i < |tebs| ==>
                && tebs[i].fls == (if i == a then old(tebs[i].fls)[index := 0] else old(tebs[i].fls))
                && tebs[i].protectors == old(tebs[i].protectors) && tebs[i].runningDown == old(tebs[i].runningDown)
    {
      hide Ring;
      data := teb.TakeSlot(index);
    }

    /** Go on to the next TEB, if that is not running down. */
    method Advance(ghost index: nat, teb: Teb, ghost k: nat, ghost n: nat,
                   ghost rows: seq<seq<nat>>, ghost counts: seq<nat>, ghost downs: seq<bool>) returns (next: Teb?)
      requires Valid() && k < |tebs| && n < |tebs| && tebs[Around(k, n, |tebs|)] == teb
      requires Swept(tebs, rows, counts, downs, index, k, n + 1, Around(k, n, |tebs|))
      modifies tebs
      ensures Valid() && |downs| == |tebs|
      ensures next == if downs[Around(k, n + 1, |tebs|)] then null else tebs[Around(k, n + 1, |tebs|)]
      ensures var here := if next == null then |tebs| else Around(k, n + 1, |tebs|);
              Swept(tebs, rows, counts, downs, index, k, n + 1, here)
    {
      hide Ring, Around, StepsTo;
      AroundFacts(k, n, |tebs|);
      next := NextTeb(teb, Around(k, n, |tebs|));
    }

    // -------------------------------------------------------------- shutdown

    /** LdkpInvokeFlsCallback: every slot is emptied; a value with a callback is delivered. */
    method InvokeFlsCallback(teb: Teb)
      requires |teb.fls| == FLS_SLOTS && |callbacks| == FLS_SLOTS
      modifies this`calls, teb
      ensures teb.links == old(teb.links) && teb.runningDown == old(teb.runningDown)
      ensures teb.protectors == old(teb.protectors) && |teb.fls| == FLS_SLOTS
      ensures !teb.runningDown ==> teb.fls == Zeros()
      ensures calls == if teb.runningDown then old(calls) else old(calls) + RowCalls(callbacks, old(teb.fls), FLS_SLOTS)
    {
      var ok := teb.Acquire();
      if ok {
        ghost var row := teb.fls;
        for i := 0 to FLS_SLOTS
          invariant |teb.fls| == FLS_SLOTS && unchanged(teb`links, teb`runningDown)
          invariant teb.protectors == old(teb.protectors) + 1
          invariant forall j :: 0 <= j < FLS_SLOTS ==> teb.fls[j] == if j < i then 0 else row[j]
          invariant calls == old(calls) + RowCalls(callbacks, row, i)
        {
          var callback := callbacks[i];
          var data := teb.TakeSlot(i);
          if callback != 0 && data != 0 {
            calls := calls + [Call(callback, data)];
          }
          assert RowCalls(callbacks, row, i + 1) == RowCalls(callbacks, row, i) + SlotCall(callbacks, row, i);
        }
        teb.Release();
      }
    }

    /** The temporary TEBs are whole, different, and not on the list. */
    ghost predicate Apart()
      reads this, temporary
    {
      && (forall i :: 0 <= i < |temporary| ==> |temporary[i].fls| == FLS_SLOTS && temporary[i] !in tebs)
      && (forall i, j :: 0 <= i < j < |temporary| ==> temporary[i] != temporary[j])
    }

    /** LdkCurrentTeb on a thread without a TEB, while LDK shuts down. */
    method PushTemporary() returns (teb: Teb)
      requires Valid() && Apart()
      modifies this`temporary
      ensures Valid() && Apart() && fresh(teb) && temporary == [teb] + old(temporary)
    {
      teb := new Teb();
      temporary := [teb] + temporary;
    }

    /** LdkpTerminateTebMap: every TEB of the list is torn down once, in list order, and one that is running
        down already gets no calls; then the temporary TEBs go, the one of the calling thread included if it
        had to be made for this. */
    method TerminateTebMap(hasTeb: bool) returns (torn: seq<Teb>, gone: seq<Teb>)
      requires Valid() && Apart()
      modifies this`nodes, this`tebs, this`calls, this`temporary, head, nodes, tebs, temporary
      ensures Valid() && tebs == [] && nodes == [] && temporary == []
      ensures torn == old(tebs)
      ensures hasTeb ==> gone == old(temporary)
      ensures !hasTeb ==> |gone| == |old(temporary)| + 1 && fresh(gone[0]) && gone[1..] == old(temporary)
      ensures calls == old(calls) + AllCalls(callbacks, old(Served(tebs)))
      ensures forall i :: 0 <= i < |torn| ==> Torn(torn[i])
      ensures forall i :: 0 <= i < |gone| ==> Torn(gone[i])
    {
      hide Ring, RowCalls, AllCalls, Torn;
      ghost var served := Served(tebs);
      if !hasTeb {
        var _ := PushTemporary();
      }
      torn := TakeAndTearDown();
      assert served == old(Served(tebs));
      gone := DeleteTemporaries();
    }

    /** The part about the list. */
    method TakeAndTearDown() returns (torn: seq<Teb>)
      requires Valid()
      modifies this`nodes, this`tebs, this`calls, head, nodes, tebs
      ensures Valid() && tebs == [] && nodes == [] && torn == old(tebs)
      ensures calls == old(calls) + AllCalls(callbacks, old(Served(tebs)))
      ensures forall i :: 0 <= i < |torn| ==> Torn(torn[i])
    {
      hide Ring, RowCalls, AllCalls, LinksOf, Halfway, Torn;
      var local := new Link(null);
      ghost var links, left, rows := nodes, tebs, Served(tebs);
      NothingTorn(links, left);
      MoveList(head, local, nodes);
      nodes, tebs := [], [];
      torn := TearDown(local, links, left, rows);
      AllTorn(left, rows);
    }

    /** The part about the temporary TEBs, which get no calls. */
    method DeleteTemporaries() returns (gone: seq<Teb>)
      requires Valid() && Apart() && tebs == []
      modifies this`temporary, temporary
      ensures Valid() && temporary == [] && gone == old(temporary)
      ensures forall i :: 0 <= i < |gone| ==> Torn(gone[i])
    {
      hide Ring, LinksOf, Torn, Different, Apart, Valid;
      ghost var all := temporary;
      gone := [];
      AllDifferent();
      while temporary != []
        invariant Valid() && Apart() && tebs == []
        invariant gone + temporary == all && Different(all)
        invariant forall i :: 0 <= i < |gone| ==> Torn(gone[i])
        decreases |temporary|
      {
        OneMoreGone(gone, temporary);
        var teb := DeleteNewest(gone);
        gone := gone + [teb];
      }
    }

    lemma AllDifferent()
      requires Apart()
      ensures Different(temporary)
    {
    }

    /** InterlockedPopEntrySList and LdkDeleteTeb. */
    method DeleteNewest(ghost gone: seq<Teb>) returns (teb: Teb)
      requires Valid() && Apart() && tebs == [] && temporary != []
      requires temporary[0] !in gone && forall i :: 0 <= i < |gone| ==> Torn(gone[i])
      modifies this`temporary, temporary[0]
      ensures Valid() && Apart() && teb == old(temporary[0]) && temporary == old(temporary[1..])
      ensures Torn(teb) && forall i :: 0 <= i < |gone| ==> Torn(gone[i])
    {
      hide Ring, LinksOf, Torn;
      teb := temporary[0];
      temporary := temporary[1..];
      DeleteTeb(teb);
    }

    /** The loop of LdkpTerminateTebMap over the list it has taken. */
    method TearDown(local: Link, ghost links: seq<Link>, ghost left: seq<Teb>, ghost rows: seq<seq<nat>>)
      returns (torn: seq<Teb>)
      requires Valid() && tebs == [] && nodes == [] && local != head && head !in links && local !in links
      requires Ring(local, links) && LinksOf(links, left) && Halfway(left, rows, 0)
      modifies this`calls, local, links, left
      ensures Valid() && torn == left && Halfway(left, rows, |left|)
      ensures calls == old(calls) + AllCalls(callbacks, rows)
    {
      hide Ring, RowCalls, AllCalls, Halfway, LinksOf, Rest;
      SizesAgree(links, left, rows);
      torn := [];
      AllCallsOfNone(callbacks, rows);
      RestOfAll(links);
      ghost var n := 0;
      var entry := RemoveHead(local, links);
      while entry != local
        invariant n <= |left| == |links| == |rows|
        invariant Valid() && LinksOf(links, left) && Halfway(left, rows, n)
        invariant entry == (if n < |links| then links[n] else local) && Ring(local, Rest(links, n))
        invariant torn == left[..n] && calls == old(calls) + AllCalls(callbacks, rows[..n])
        decreases |left| - n
      {
        TebAt(links, left, n);
        var teb := entry.owner;
        entry := RemoveNext(local, links, n);
        ghost var rest := Rest(links, n + 1);
        assert Ring(local, rest);
        TearOne(teb, links, left, rows, n);
        assert Ring(local, rest);
        torn := torn + [teb];
        AllCallsNext(callbacks, rows, n);
        n := n + 1;
      }
      WholeOf(left, rows);
    }

    /** RemoveHeadList in that loop. */
    method RemoveNext(local: Link, ghost links: seq<Link>, ghost n: nat) returns (entry: Link)
      requires n < |links| && local !in links && Ring(local, Rest(links, n))
      modifies local, links
      ensures entry == (if n + 1 < |links| then links[n + 1] else local) && Ring(local, Rest(links, n + 1))
    {
      hide Ring;
      entry := RemoveHead(local, Rest(links, n));
    }

    /** One TEB of that loop. */
    method TearOne(teb: Teb, ghost links: seq<Link>, ghost left: seq<Teb>, ghost rows: seq<seq<nat>>, ghost n: nat)
      requires n < |left| == |rows| && teb == left[n] && |callbacks| == FLS_SLOTS
      requires LinksOf(links, left) && Halfway(left, rows, n)
      modifies this`calls, teb
      ensures LinksOf(links, left) && Halfway(left, rows, n + 1)
      ensures calls == old(calls) + RowCalls(callbacks, rows[n], FLS_SLOTS)
    {
      hide RowCalls;
      NoCallsFromZeros(callbacks, FLS_SLOTS);
      InvokeFlsCallback(teb);
      DeleteTeb(teb);
    }

    /** LdkDeleteTeb waits until nobody holds the TEB any more, and nobody gets hold of it afterwards. */
    method DeleteTeb(teb: Teb)
      requires |teb.fls| == FLS_SLOTS
      modifies teb
      ensures teb.links == old(teb.links) && Torn(teb)
    {
      var _ := teb.AwaitRelease();
      teb.fls := Zeros();
    }
  }

  ghost predicate Different(tebs: seq<Teb>) {
    forall i, j :: 0 <= i < j < |tebs| ==> tebs[i] != tebs[j]
  }

  lemma OneMoreGone(gone: seq<Teb>, rest: seq<Teb>)
    requires Different(gone + rest) && rest != []
    ensures rest[0] !in gone && rest[0] in gone + rest && gone + [rest[0]] + rest[1..] == gone + rest
  {
    assert (gone + rest)[|gone|] == rest[0];
    forall i | 0 <= i < |gone| ensures gone[i] != rest[0] {
      assert (gone + rest)[i] == gone[i];
    }
  }

  /** Run down for good: nobody holds it, its slots are empty. */
  ghost predicate Torn(teb: Teb)
    reads teb
  {
    teb.runningDown && teb.protectors == 0 && teb.fls == Zeros()
  }

  /** The values that teardown looks at: none in a TEB that runs down already. */
  ghost function Served(tebs: seq<Teb>): (r: seq<seq<nat>>)
    reads tebs
    ensures |r| == |tebs| && forall i :: 0 <= i < |tebs| ==>
              r[i] == if tebs[i].runningDown then Zeros() else tebs[i].fls
  {
    seq(|tebs|, i requires 0 <= i < |tebs| reads tebs => if tebs[i].runningDown then Zeros() else tebs[i].fls)
  }

  /** The first `n` TEBs are torn down, of the others `rows` has what there is to deliver. */
  ghost predicate Halfway(left: seq<Teb>, rows: seq<seq<nat>>, n: nat)
    reads left
  {
    && |rows| == |left|
    && (forall i :: 0 <= i < |left| ==>
          && |rows[i]| == FLS_SLOTS
          && (i < n ==> Torn(left[i]))
          && (i >= n ==> rows[i] == if left[i].runningDown then Zeros() else left[i].fls))
  }

  /** What is left on the list while the loop holds entry `n`. */
  function Rest(links: seq<Link>, n: nat): seq<Link> {
    if n < |links| then links[n + 1..] else []
  }

  lemma NothingTorn(links: seq<Link>, left: seq<Teb>)
    requires LinksOf(links, left)
    ensures Halfway(left, Served(left), 0) && LinksOf([], [])
  {
  }

  lemma AllTorn(left: seq<Teb>, rows: seq<seq<nat>>)
    requires Halfway(left, rows, |left|)
    ensures forall i :: 0 <= i < |left| ==> Torn(left[i])
  {
  }

  lemma SizesAgree(links: seq<Link>, left: seq<Teb>, rows: seq<seq<nat>>)
    requires LinksOf(links, left) && Halfway(left, rows, 0)
    ensures |links| == |left| == |rows| && forall i :: 0 <= i < |rows| ==> |rows[i]| == FLS_SLOTS
  {
  }

  lemma TebAt(links: seq<Link>, left: seq<Teb>, n: nat)
    requires LinksOf(links, left) && n < |links| == |left|
    ensures links[n].owner == left[n]
  {
  }

  lemma RestOfAll(links: seq<Link>)
    ensures links == [] ==> Rest(links, 0) == []
    ensures links != [] ==> Rest(links, 0) == links[1..]
  {
  }

  lemma WholeOf(left: seq<Teb>, rows: seq<seq<nat>>)
    requires |left| == |rows|
    ensures left[..|left|] == left && rows[..|left|] == rows
  {
  }

  function Zeros(): (r: seq<nat>)
    ensures |r| == FLS_SLOTS && forall i :: 0 <= i < FLS_SLOTS ==> r[i] == 0
  {
    seq(FLS_SLOTS, _ => 0)
  }

  /** The calls owed for the first `n` slots of one TEB. */
  function RowCalls(callbacks: seq<nat>, row: seq<nat>, n: nat): seq<Call>
    requires n <= |row| && n <= |callbacks|
  {
    if n == 0 then [] else RowCalls(callbacks, row, n - 1) + SlotCall(callbacks, row, n - 1)
  }

  /** Positions below `n`, in ascending order: those, and only those, that are wanted. */
  ghost predicate Picks(at: seq<nat>, wanted: set<nat>, n: nat) {
    && (forall k :: 0 <= k < |at| ==> at[k] < n && at[k] in wanted)
    && (forall k, l :: 0 <= k < l < |at| ==> at[k] < at[l])
    && (forall i :: i in wanted && i < n ==> i in at)
  }

  lemma PicksNext(at: seq<nat>, wanted: set<nat>, n: nat)
    requires Picks(at, wanted, n)
    ensures Picks(if n in wanted then at + [n] else at, wanted, n + 1)
  {
    var more := if n in wanted then at + [n] else at;
    forall i | i in wanted && i < n + 1
      ensures i in more
    {
      if i < n {
        var k :| 0 <= k < |at| && at[k] == i;
        assert more[k] == i;
      } else {
        assert more[|at|] == i;
      }
    }
  }

  /** The slots with both a value and a callback. */
  function Owed(callbacks: seq<nat>, row: seq<nat>): set<nat> {
    set i | 0 <= i < |row| && i < |callbacks| && callbacks[i] != 0 && row[i] != 0
  }

  /** These are the calls: one for each slot with both a value and a callback, in the order of the slots. */
  lemma {:induction false} RowCallsMean(callbacks: seq<nat>, row: seq<nat>, n: nat) returns (at: seq<nat>)
    requires n <= |row| && n <= |callbacks|
    ensures Picks(at, Owed(callbacks, row), n) && |at| == |RowCalls(callbacks, row, n)|
    ensures forall k :: 0 <= k < |at| ==>
              at[k] < n && RowCalls(callbacks, row, n)[k] == Call(callbacks[at[k]], row[at[k]])
  {
    hide Picks;
    at := [];
    if n == 0 {
      NoPicks(Owed(callbacks, row));
    } else {
      at := RowCallsMean(callbacks, row, n - 1);
      PicksNext(at, Owed(callbacks, row), n - 1);
      at := if n - 1 in Owed(callbacks, row) then at + [n - 1] else at;
    }
  }

  lemma NoPicks(wanted: set<nat>)
    ensures Picks([], wanted, 0)
  {
  }

  /** And these: one for each value that is not null, in order. */
  lemma {:induction false} CallsForMean(callback: nat, values: seq<nat>, n: nat) returns (at: seq<nat>)
    requires n <= |values|
    ensures var wanted := set i | 0 <= i < |values| && values[i] != 0;
            Picks(at, wanted, n) && |at| == |CallsFor(callback, values[..n])|
    ensures forall k :: 0 <= k < |at| ==>
              at[k] < n && CallsFor(callback, values[..n])[k] == Call(callback, values[at[k]])
  {
    hide Picks;
    var wanted := set i | 0 <= i < |values| && values[i] != 0;
    at := [];
    if n == 0 {
      NoPicks(wanted);
    } else {
      at := CallsForMean(callback, values, n - 1);
      PicksNext(at, wanted, n - 1);
      assert values[..n][..n - 1] == values[..n - 1];
      at := if n - 1 in wanted then at + [n - 1] else at;
    }
  }

  lemma {:induction false} NoCallsFromZeros(callbacks: seq<nat>, n: nat)
    requires n <= FLS_SLOTS && n <= |callbacks|
    ensures RowCalls(callbacks, Zeros(), n) == []
  {
    if n > 0 {
      NoCallsFromZeros(callbacks, n - 1);
    }
  }

  /** The calls owed for all TEBs, one after the other. */
  function AllCalls(callbacks: seq<nat>, rows: seq<seq<nat>>): seq<Call>
    requires |callbacks| == FLS_SLOTS && forall i :: 0 <= i < |rows| ==> |rows[i]| == FLS_SLOTS
  {
    if rows == [] then []
    else AllCalls(callbacks, rows[..|rows| - 1]) + RowCalls(callbacks, rows[|rows| - 1], FLS_SLOTS)
  }

  lemma AllCallsOfNone(callbacks: seq<nat>, rows: seq<seq<nat>>)
    requires |callbacks| == FLS_SLOTS && forall i :: 0 <= i < |rows| ==> |rows[i]| == FLS_SLOTS
    ensures AllCalls(callbacks, rows[..0]) == []
  {
  }

  lemma AllCallsNext(callbacks: seq<nat>, rows: seq<seq<nat>>, n: nat)
    requires |callbacks| == FLS_SLOTS && (forall i :: 0 <= i < |rows| ==> |rows[i]| == FLS_SLOTS) && n < |rows|
    ensures AllCalls(callbacks, rows[..n + 1]) ==
            AllCalls(callbacks, rows[..n]) + RowCalls(callbacks, rows[n], FLS_SLOTS)
  {
    assert rows[..n + 1][..n] == rows[..n];
  }

  // ---------------------------------------------------------------- FlsFree before shutdown

  /** The slots after FlsFree has emptied one of them in every TEB. */
  function Cleared(rows: seq<seq<nat>>, index: nat): (r: seq<seq<nat>>)
    requires forall i :: 0 <= i < |rows| ==> index < |rows[i]|
    ensures |r| == |rows| && forall i :: 0 <= i < |rows| ==> r[i] == rows[i][index := 0]
  {
    seq(|rows|, i requires 0 <= i < |rows| => rows[i][index := 0])
  }

  lemma {:induction false} CallsForConcat(callback: nat, a: seq<nat>, b: seq<nat>)
    ensures CallsFor(callback, a + b) == CallsFor(callback, a) + CallsFor(callback, b)
  {
    if b == [] {
      assert a + b == a;
    } else {
      assert (a + b)[..|a + b| - 1] == a + b[..|b| - 1];
      CallsForConcat(callback, a, b[..|b| - 1]);
    }
  }

  /** Where the walk starts does not matter to which calls are made. */
  lemma AnyStartMakesTheSameCalls(callback: nat, rows: seq<seq<nat>>, k: nat, index: nat)
    requires k < |rows| && forall i :: 0 <= i < |rows| ==> index < |rows[i]|
    ensures multiset(CallsFor(callback, Column(rows, k, index))) == multiset(CallsFor(callback, Column(rows, 0, index)))
  {
    var plain := Column(rows, 0, index);
    assert Column(rows, k, index) == plain[k..] + plain[..k];
    assert plain == plain[..k] + plain[k..];
    CallsForConcat(callback, plain[k..], plain[..k]);
    CallsForConcat(callback, plain[..k], plain[k..]);
  }

  lemma Joined(a: seq<Call>, b: seq<Call>)
    ensures multiset(a + b) == multiset(a) + multiset(b)
  {
  }

  /** The call owed for slot `i` of one TEB, if there is one. */
  function SlotCall(callbacks: seq<nat>, row: seq<nat>, i: nat): seq<Call>
    requires i < |row| && i < |callbacks|
  {
    if callbacks[i] != 0 && row[i] != 0 then [Call(callbacks[i], row[i])] else []
  }

  lemma SlotCallSplit(callbacks: seq<nat>, row: seq<nat>, index: nat, i: nat)
    requires i < |row| && i < |callbacks| && index < |row| && index < |callbacks|
    ensures SlotCall(callbacks[index := 0], row[index := 0], i) ==
            if i == index then [] else SlotCall(callbacks, row, i)
  {
  }

  /** All calls of one TEB but the one for slot `index`, which FlsFree makes. */
  lemma {:induction false} RowCallsSplit(callbacks: seq<nat>, row: seq<nat>, index: nat, n: nat)
    requires n <= |row| == |callbacks| && index < |row|
    ensures multiset(RowCalls(callbacks, row, n)) ==
            multiset(RowCalls(callbacks[index := 0], row[index := 0], n)) +
            (if index < n then multiset(SlotCall(callbacks, row, index)) else multiset{})
  {
    hide SlotCall, RowCalls;
    if n > 0 {
      RowCallsSplit(callbacks, row, index, n - 1);
      SlotCallSplit(callbacks, row, index, n - 1);
      RowCallsLast(callbacks, row, n);
      RowCallsLast(callbacks[index := 0], row[index := 0], n);
    } else {
      NoRowCalls(callbacks, row);
      NoRowCalls(callbacks[index := 0], row[index := 0]);
    }
  }

  lemma NoRowCalls(callbacks: seq<nat>, row: seq<nat>)
    ensures RowCalls(callbacks, row, 0) == []
  {
  }

  lemma RowCallsLast(callbacks: seq<nat>, row: seq<nat>, n: nat)
    requires 0 < n <= |row| && n <= |callbacks|
    ensures multiset(RowCalls(callbacks, row, n)) ==
            multiset(RowCalls(callbacks, row, n - 1)) + multiset(SlotCall(callbacks, row, n - 1))
  {
    Joined(RowCalls(callbacks, row, n - 1), SlotCall(callbacks, row, n - 1));
  }

  lemma CallsForLast(callbacks: seq<nat>, rows: seq<seq<nat>>, index: nat)
    requires |callbacks| == FLS_SLOTS && (forall i :: 0 <= i < |rows| ==> |rows[i]| == FLS_SLOTS) && index < FLS_SLOTS
    requires callbacks[index] != 0 && |rows| > 1
    ensures CallsFor(callbacks[index], Column(rows, 0, index)) ==
            CallsFor(callbacks[index], Column(rows[..|rows| - 1], 0, index)) +
            SlotCall(callbacks, rows[|rows| - 1], index)
  {
    assert Column(rows, 0, index)[..|rows| - 1] == Column(rows[..|rows| - 1], 0, index);
  }

  lemma {:induction false} AllCallsSplit(callbacks: seq<nat>, rows: seq<seq<nat>>, index: nat)
    requires |callbacks| == FLS_SLOTS && (forall i :: 0 <= i < |rows| ==> |rows[i]| == FLS_SLOTS) && index < FLS_SLOTS
    requires callbacks[index] != 0 && rows != []
    ensures multiset(AllCalls(callbacks, rows)) ==
            multiset(CallsFor(callbacks[index], Column(rows, 0, index))) +
            multiset(AllCalls(callbacks[index := 0], Cleared(rows, index)))
  {
    hide CallsFor, RowCalls, SlotCall, AllCalls;
    var init, last := rows[..|rows| - 1], rows[|rows| - 1];
    var cut := callbacks[index := 0];
    RowCallsSplit(callbacks, last, index, FLS_SLOTS);
    AllCallsLast(callbacks, rows);
    AllCallsLast(cut, Cleared(rows, index));
    assert Cleared(rows, index)[..|rows| - 1] == Cleared(init, index);
    if init != [] {
      AllCallsSplit(callbacks, init, index);
      CallsForLast(callbacks, rows, index);
      Joined(CallsFor(callbacks[index], Column(init, 0, index)), SlotCall(callbacks, last, index));
    } else {
      CallsForOne(callbacks, rows, index);
    }
  }

  lemma AllCallsLast(callbacks: seq<nat>, rows: seq<seq<nat>>)
    requires |callbacks| == FLS_SLOTS && (forall i :: 0 <= i < |rows| ==> |rows[i]| == FLS_SLOTS) && rows != []
    ensures multiset(AllCalls(callbacks, rows)) ==
            multiset(AllCalls(callbacks, rows[..|rows| - 1]))
            + multiset(RowCalls(callbacks, rows[|rows| - 1], FLS_SLOTS))
    ensures |rows| == 1 ==> AllCalls(callbacks, rows[..0]) == []
  {
    Joined(AllCalls(callbacks, rows[..|rows| - 1]), RowCalls(callbacks, rows[|rows| - 1], FLS_SLOTS));
  }

  lemma CallsForOne(callbacks: seq<nat>, rows: seq<seq<nat>>, index: nat)
    requires |callbacks| == FLS_SLOTS && (forall i :: 0 <= i < |rows| ==> |rows[i]| == FLS_SLOTS) && index < FLS_SLOTS
    requires callbacks[index] != 0 && |rows| == 1
    ensures CallsFor(callbacks[index], Column(rows, 0, index)) == SlotCall(callbacks, rows[0], index)
  {
    var column := Column(rows, 0, index);
    assert column[..0] == [];
  }

  /** FlsFree before shutdown takes nothing from shutdown and adds nothing: together they make the
      calls shutdown alone would have made, so each value is delivered at most once. */
  lemma FreeThenShutdownDeliversOnce(callbacks: seq<nat>, rows: seq<seq<nat>>, k: nat, index: nat)
    requires |callbacks| == FLS_SLOTS && (forall i :: 0 <= i < |rows| ==> |rows[i]| == FLS_SLOTS) && index < FLS_SLOTS
    requires callbacks[index] != 0 && k < |rows|
    ensures multiset(CallsFor(callbacks[index], Column(rows, k, index))) +
            multiset(AllCalls(callbacks[index := 0], Cleared(rows, index))) ==
            multiset(AllCalls(callbacks, rows))
  {
    hide CallsFor, AllCalls, Column, Cleared;
    AllCallsSplit(callbacks, rows, index);
    AnyStartMakesTheSameCalls(callbacks[index], rows, k, index);
  }

  lemma CallsGrow(callback: nat, column: seq<nat>)
    ensures CallsFor(callback, column[..0]) == [] && column[..|column|] == column
  {
  }

  lemma CallsNext(callback: nat, column: seq<nat>, n: nat)
    requires n < |column|
    ensures CallsFor(callback, column[..n + 1]) ==
            CallsFor(callback, column[..n]) + (if column[n] != 0 then [Call(callback, column[n])] else [])
  {
    assert column[..n + 1][..n] == column[..n];
  }
}
