/** Base relocation: the walk over the blocks of a .reloc table, adding the difference between the
    actual and the preferred base to every field it lists. */
module Relocation {
  import opened Wrappers

  // ---------------------------------------------------------------- little-endian numbers

  function Modulus(w: nat): (r: nat)
    ensures r > 0
  {
    if w == 0 then 1 else 0x100 * Modulus(w - 1)
  }

  function Value(s: seq<byte>): (r: nat)
    ensures r < Modulus(|s|)
  {
    if s == [] then 0 else s[0] + 0x100 * Value(s[1..])
  }

  function Bytes(v: nat, w: nat): (r: seq<byte>)
    ensures |r| == w
    decreases w
  {
    if w == 0 then [] else [v % 0x100] + Bytes(v / 0x100, w - 1)
  }

  lemma {:induction false} BytesOfValue(s: seq<byte>)
    ensures Bytes(Value(s), |s|) == s
  {
    hide Modulus;
    if s != [] {
      LowByte(s[0], Value(s[1..]));
      BytesOfValue(s[1..]);
      assert s == [s[0]] + s[1..];
    }
  }

  lemma LowByte(b: byte, v: nat)
    ensures (b + 0x100 * v) % 0x100 == b && (b + 0x100 * v) / 0x100 == v
  {
  }

  lemma {:induction false} ValueOfBytes(v: nat, w: nat)
    requires v < Modulus(w)
    ensures Value(Bytes(v, w)) == v
    decreases w
  {
    if w > 0 {
      ValueOfBytes(v / 0x100, w - 1);
    }
  }

  /** The bytes from `o` up to `o + w`. */
  function Field(b: seq<byte>, o: nat, w: nat): (r: seq<byte>)
    requires o + w <= |b|
    ensures |r| == w
  {
    b[o..o + w]
  }

  function Word(b: seq<byte>, o: nat, w: nat): (r: nat)
    requires o + w <= |b|
    ensures r < Modulus(w)
  {
    Value(Field(b, o, w))
  }

  // ---------------------------------------------------------------- the table

  const HEADER: nat := 8

  function VirtualAddress(b: seq<byte>, at: nat): nat
    requires at + HEADER <= |b|
  {
    Word(b, at, 4)
  }

  function SizeOfBlock(b: seq<byte>, at: nat): nat
    requires at + HEADER <= |b|
  {
    Word(b, at + 4, 4)
  }

  /** How many 16-bit entries a block has. */
  function TotalCount(size: nat): nat {
    if size >= HEADER then (size - HEADER) / 2 else 0
  }

  /** Every header the walk reaches, and every entry of its blocks, lies in the image. */
  predicate TableInImage(b: seq<byte>, at: nat)
    decreases |b| - at
  {
    && at + HEADER <= |b|
    && (VirtualAddress(b, at) == 0 || SizeOfBlock(b, at) == 0 ||
        (at + SizeOfBlock(b, at) <= |b| && TableInImage(b, at + SizeOfBlock(b, at))))
  }

  /** Where the walk stops reading. */
  function TableEnd(b: seq<byte>, at: nat): (r: nat)
    requires TableInImage(b, at)
    ensures at + HEADER <= r <= |b|
    decreases |b| - at
  {
    if VirtualAddress(b, at) == 0 || SizeOfBlock(b, at) == 0 then at + HEADER
    else TableEnd(b, at + SizeOfBlock(b, at))
  }

  /** The fields listed by the first `n` entries of a block; an entry of zero is padding, and the address
      is formed in 32 bits. */
  function BlockFields(b: seq<byte>, at: nat, n: nat): seq<nat>
    requires at + HEADER + 2 * n <= |b|
  {
    if n == 0 then []
    else
      var entry := Word(b, at + HEADER + 2 * (n - 1), 2);
      BlockFields(b, at, n - 1) +
      (if entry == 0 then [] else [(VirtualAddress(b, at) + entry % 0x1000) % 0x1_0000_0000])
  }

  /** All fields the table lists, in order. */
  function Fields(b: seq<byte>, at: nat): seq<nat>
    requires TableInImage(b, at)
    decreases |b| - at
  {
    if VirtualAddress(b, at) == 0 || SizeOfBlock(b, at) == 0 then []
    else BlockFields(b, at, TotalCount(SizeOfBlock(b, at))) + Fields(b, at + SizeOfBlock(b, at))
  }

  // ---------------------------------------------------------------- what relocation does

  /** One field with `d` added, modulo the word size. */
  function Added(b: seq<byte>, o: nat, w: nat, d: int): (r: seq<byte>)
    requires o + w <= |b|
    ensures |r| == |b|
  {
    b[..o] + Bytes((Word(b, o, w) + d) % Modulus(w), w) + b[o + w..]
  }

  predicate InRange(size: nat, fields: seq<nat>, w: nat) {
    forall k :: 0 <= k < |fields| ==> fields[k] + w <= size
  }

  /** One field after the other. */
  function Applied(b: seq<byte>, fields: seq<nat>, w: nat, d: int): (r: seq<byte>)
    requires InRange(|b|, fields, w)
    ensures |r| == |b|
    decreases |fields|
  {
    if fields == [] then b
    else Added(Applied(b, fields[..|fields| - 1], w, d), fields[|fields| - 1], w, d)
  }

  predicate Apart(i: nat, j: nat, w: nat) {
    i + w <= j || j + w <= i
  }

  predicate Disjoint(fields: seq<nat>, w: nat) {
    forall i, j :: 0 <= i < j < |fields| ==> Apart(fields[i], fields[j], w)
  }

  /** No field touches the bytes of the table. */
  predicate OffTable(fields: seq<nat>, w: nat, from: nat, to: nat) {
    forall k :: 0 <= k < |fields| ==> fields[k] + w <= from || to <= fields[k]
  }

  lemma AddedHere(b: seq<byte>, o: nat, w: nat, d: int)
    requires o + w <= |b|
    ensures Word(Added(b, o, w, d), o, w) == (Word(b, o, w) + d) % Modulus(w)
  {
    var v := (Word(b, o, w) + d) % Modulus(w);
    ValueOfBytes(v, w);
    assert Field(Added(b, o, w, d), o, w) == Bytes(v, w);
  }

  lemma AddedElsewhere(b: seq<byte>, o: nat, w: nat, d: int, p: nat, n: nat)
    requires o + w <= |b| && p + n <= |b| && (p + n <= o || o + w <= p)
    ensures Field(Added(b, o, w, d), p, n) == Field(b, p, n)
  {
    forall j | 0 <= j < n
      ensures Field(Added(b, o, w, d), p, n)[j] == Field(b, p, n)[j]
    {
      var k := p + j;
      assert k < o || k >= o + w;
    }
  }

  lemma WordElsewhere(b: seq<byte>, o: nat, w: nat, d: int, p: nat)
    requires o + w <= |b| && p + w <= |b| && Apart(p, o, w)
    ensures Word(Added(b, o, w, d), p, w) == Word(b, p, w)
  {
    AddedElsewhere(b, o, w, d, p, w);
  }

  lemma SameWord(a: seq<byte>, b: seq<byte>, p: nat, w: nat)
    requires |a| == |b| && p + w <= |b| && Field(a, p, w) == Field(b, p, w)
    ensures Word(a, p, w) == Word(b, p, w)
  {
  }

  /** Bytes outside every field keep their values. */
  lemma {:induction false} AppliedElsewhere(b: seq<byte>, fields: seq<nat>, w: nat, d: int, p: nat, n: nat)
    requires InRange(|b|, fields, w) && p + n <= |b|
    requires forall k :: 0 <= k < |fields| ==> p + n <= fields[k] || fields[k] + w <= p
    ensures Field(Applied(b, fields, w, d), p, n) == Field(b, p, n)
    decreases |fields|
  {
    hide Added, Field;
    if fields != [] {
      var init := fields[..|fields| - 1];
      AppliedElsewhere(b, init, w, d, p, n);
      AddedElsewhere(Applied(b, init, w, d), fields[|fields| - 1], w, d, p, n);
    }
  }

  /** Every listed field becomes its old value plus the difference. */
  lemma {:induction false} AppliedHere(b: seq<byte>, fields: seq<nat>, w: nat, d: int, k: nat)
    requires InRange(|b|, fields, w) && Disjoint(fields, w) && k < |fields|
    ensures Word(Applied(b, fields, w, d), fields[k], w) == (Word(b, fields[k], w) + d) % Modulus(w)
    decreases |fields|
  {
    hide Added, Field, Word, Modulus;
    var init, last := fields[..|fields| - 1], fields[|fields| - 1];
    if k < |init| {
      AppliedHere(b, init, w, d, k);
      WordElsewhere(Applied(b, init, w, d), last, w, d, fields[k]);
    } else {
      AddedHere(Applied(b, init, w, d), last, w, d);
      AppliedElsewhere(b, init, w, d, last, w);
      assert Word(Applied(b, init, w, d), last, w) == Word(b, last, w) by {
        SameWord(Applied(b, init, w, d), b, last, w);
      }
    }
  }

  /** Images that agree on every field and outside all of them are the same. */
  lemma SameImage(a: seq<byte>, b: seq<byte>, fields: seq<nat>, w: nat)
    requires |a| == |b| && InRange(|a|, fields, w)
    requires forall k :: 0 <= k < |fields| ==> Word(a, fields[k], w) == Word(b, fields[k], w)
    requires forall j :: 0 <= j < |a| && (forall k :: 0 <= k < |fields| ==> j < fields[k] || fields[k] + w <= j) ==>
               a[j] == b[j]
    ensures a == b
  {
    forall j | 0 <= j < |a|
      ensures a[j] == b[j]
    {
      if k :| 0 <= k < |fields| && fields[k] <= j < fields[k] + w {
        BytesOfValue(Field(a, fields[k], w));
        BytesOfValue(Field(b, fields[k], w));
        assert a[j] == Field(a, fields[k], w)[j - fields[k]];
        assert b[j] == Field(b, fields[k], w)[j - fields[k]];
      }
    }
  }

  lemma ModAdd(x: int, d: int, e: int, m: nat)
    requires m > 0
    ensures ((x + d) % m + e) % m == (x + d + e) % m
  {
    var q := (x + d) / m;
    assert x + d + e == ((x + d) % m + e) + m * q;
    ModPlus((x + d) % m + e, q, m);
  }

  lemma {:induction false} ModPlus(x: int, q: int, m: nat)
    requires m > 0
    ensures (x + m * q) % m == x % m
  {
    var r := x / m;
    assert x + m * q == m * (r + q) + x % m;
    ModUnique(x + m * q, r + q, x % m, m);
  }

  lemma ModUnique(x: int, q: int, r: int, m: nat)
    requires x == m * q + r && 0 <= r < m
    ensures x % m == r
  {
    var e := x / m - q;
    assert m * e == r - x % m;
    if e > 0 {
      Grows(m, e);
    } else if e < 0 {
      Grows(m, -e);
    }
  }

  lemma Grows(m: nat, e: int)
    requires e > 0
    ensures m * e >= m
  {
  }

  lemma FieldAfterBoth(b: seq<byte>, fields: seq<nat>, w: nat, d: int, e: int, k: nat)
    requires InRange(|b|, fields, w) && Disjoint(fields, w) && k < |fields|
    ensures Word(Applied(Applied(b, fields, w, d), fields, w, e), fields[k], w) ==
            Word(Applied(b, fields, w, d + e), fields[k], w)
  {
    hide Applied, Word, Modulus, Disjoint;
    AppliedHere(b, fields, w, d, k);
    AppliedHere(Applied(b, fields, w, d), fields, w, e, k);
    AppliedHere(b, fields, w, d + e, k);
    AddedTwice(Word(b, fields[k], w), Word(Applied(b, fields, w, d), fields[k], w), d, e, Modulus(w));
  }

  lemma AddedTwice(x: int, once: int, d: int, e: int, m: nat)
    requires m > 0 && once == (x + d) % m
    ensures (once + e) % m == (x + (d + e)) % m
  {
    ModAdd(x, d, e, m);
  }

  lemma ByteAfterBoth(b: seq<byte>, fields: seq<nat>, w: nat, d: int, e: int, j: nat)
    requires InRange(|b|, fields, w) && j < |b|
    requires forall k :: 0 <= k < |fields| ==> j < fields[k] || fields[k] + w <= j
    ensures Applied(Applied(b, fields, w, d), fields, w, e)[j] == Applied(b, fields, w, d + e)[j]
  {
    hide Applied;
    ByteElsewhere(b, fields, w, d, j);
    ByteElsewhere(Applied(b, fields, w, d), fields, w, e, j);
    ByteElsewhere(b, fields, w, d + e, j);
  }

  /** Moving an image by `d` and then by `e` is moving it by both at once. */
  lemma ShiftsAdd(b: seq<byte>, fields: seq<nat>, w: nat, d: int, e: int)
    requires InRange(|b|, fields, w) && Disjoint(fields, w)
    ensures Applied(Applied(b, fields, w, d), fields, w, e) == Applied(b, fields, w, d + e)
  {
    hide Applied, Word, Disjoint;
    var twice, straight := Applied(Applied(b, fields, w, d), fields, w, e), Applied(b, fields, w, d + e);
    forall k | 0 <= k < |fields|
      ensures Word(twice, fields[k], w) == Word(straight, fields[k], w)
    {
      FieldAfterBoth(b, fields, w, d, e, k);
    }
    forall j | 0 <= j < |b| && (forall k :: 0 <= k < |fields| ==> j < fields[k] || fields[k] + w <= j)
      ensures twice[j] == straight[j]
    {
      ByteAfterBoth(b, fields, w, d, e, j);
    }
    SameImage(twice, straight, fields, w);
  }

  lemma ByteElsewhere(b: seq<byte>, fields: seq<nat>, w: nat, d: int, j: nat)
    requires InRange(|b|, fields, w) && j < |b|
    requires forall k :: 0 <= k < |fields| ==> j < fields[k] || fields[k] + w <= j
    ensures Applied(b, fields, w, d)[j] == b[j]
  {
    AppliedElsewhere(b, fields, w, d, j, 1);
    assert Field(b, j, 1)[0] == b[j];
    assert Field(Applied(b, fields, w, d), j, 1)[0] == Applied(b, fields, w, d)[j];
  }

  /** Moving by a multiple of the word size, and so by nothing, changes nothing. */
  lemma NoShift(b: seq<byte>, fields: seq<nat>, w: nat, d: int)
    requires InRange(|b|, fields, w) && Disjoint(fields, w) && d % Modulus(w) == 0
    ensures Applied(b, fields, w, d) == b
  {
    hide Applied, Word;
    forall k | 0 <= k < |fields|
      ensures Word(Applied(b, fields, w, d), fields[k], w) == Word(b, fields[k], w)
    {
      AppliedHere(b, fields, w, d, k);
      var x, m := Word(b, fields[k], w), Modulus(w);
      assert d == m * (d / m);
      ModUnique(x + d, d / m, x, m);
    }
    forall j | 0 <= j < |b| && (forall k :: 0 <= k < |fields| ==> j < fields[k] || fields[k] + w <= j)
      ensures Applied(b, fields, w, d)[j] == b[j]
    {
      ByteElsewhere(b, fields, w, d, j);
    }
    SameImage(Applied(b, fields, w, d), b, fields, w);
  }

  /** Moving back restores the image. */
  lemma ShiftBack(b: seq<byte>, fields: seq<nat>, w: nat, d: int)
    requires InRange(|b|, fields, w) && Disjoint(fields, w)
    ensures Applied(Applied(b, fields, w, d), fields, w, -d) == b
  {
    ShiftsAdd(b, fields, w, d, -d);
    NoShift(b, fields, w, 0);
  }

  // ---------------------------------------------------------------- the table after relocation

  lemma SameBytes(a: seq<byte>, b: seq<byte>, p: nat, n: nat)
    requires |a| == |b| && p + n <= |b| && forall j :: p <= j < p + n ==> a[j] == b[j]
    ensures Field(a, p, n) == Field(b, p, n)
  {
  }

  lemma {:induction false} SameBlock(a: seq<byte>, b: seq<byte>, at: nat, n: nat)
    requires |a| == |b| && at + HEADER + 2 * n <= |b| && forall j :: at <= j < at + HEADER + 2 * n ==> a[j] == b[j]
    ensures BlockFields(a, at, n) == BlockFields(b, at, n)
  {
    hide Field;
    if n > 0 {
      SameBlock(a, b, at, n - 1);
      SameBytes(a, b, at + HEADER + 2 * (n - 1), 2);
      SameBytes(a, b, at, 4);
    }
  }

  /** The table is what its own bytes say. */
  lemma {:induction false} SameTable(a: seq<byte>, b: seq<byte>, at: nat)
    requires |a| == |b| && TableInImage(b, at) && forall j :: at <= j < TableEnd(b, at) ==> a[j] == b[j]
    ensures TableInImage(a, at) && TableEnd(a, at) == TableEnd(b, at) && Fields(a, at) == Fields(b, at)
    decreases |b| - at
  {
    hide Field, BlockFields;
    SameBytes(a, b, at, 4);
    SameBytes(a, b, at + 4, 4);
    if VirtualAddress(b, at) != 0 && SizeOfBlock(b, at) != 0 {
      SameTable(a, b, at + SizeOfBlock(b, at));
      SameBlock(a, b, at, TotalCount(SizeOfBlock(b, at)));
    }
  }

  /** What a table must satisfy: its fields lie in the image, apart from each other and from it. */
  predicate WellFormed(b: seq<byte>, at: nat, w: nat) {
    && TableInImage(b, at)
    && InRange(|b|, Fields(b, at), w)
    && Disjoint(Fields(b, at), w)
    && OffTable(Fields(b, at), w, at, TableEnd(b, at))
  }

  /** Relocation leaves the table alone, so it can be done again. */
  lemma TableSurvives(b: seq<byte>, at: nat, w: Width, d: int)
    requires WellFormed(b, at, w)
    ensures var r := Applied(b, Fields(b, at), w, d); WellFormed(r, at, w) && Fields(r, at) == Fields(b, at)
  {
    hide Applied, Fields, TableInImage, TableEnd, Disjoint;
    var r := Applied(b, Fields(b, at), w, d);
    forall j | at <= j < TableEnd(b, at)
      ensures r[j] == b[j]
    {
      ByteElsewhere(b, Fields(b, at), w, d, j);
    }
    SameTable(r, b, at);
  }

  // ---------------------------------------------------------------- LdkpRelocateImage

  /** An image relocated from its preferred base to another one. */
  function Relocated(b: seq<byte>, table: Option<nat>, w: Width, base: nat, preferred: nat): (r: seq<byte>)
    requires table.Some? ==> WellFormed(b, table.value, w)
    ensures |r| == |b|
  {
    if table.None? then b else Applied(b, Fields(b, table.value), w, base - preferred)
  }

  lemma StepsJoin(b: seq<byte>, fields: seq<nat>, w: nat, d: int, more: nat)
    requires InRange(|b|, fields + [more], w)
    ensures InRange(|b|, fields, w) && more + w <= |b|
    ensures Applied(b, fields + [more], w, d) == Added(Applied(b, fields, w, d), more, w, d)
  {
    assert (fields + [more])[|fields|] == more;
    assert forall k :: 0 <= k < |fields| ==> fields[k] == (fields + [more])[k];
    assert (fields + [more])[..|fields|] == fields;
  }

  /** The addition is modulo the word size, so the difference may be reduced first. */
  lemma {:induction false} ReducedShift(b: seq<byte>, fields: seq<nat>, w: nat, d: int)
    requires InRange(|b|, fields, w)
    ensures Applied(b, fields, w, d % Modulus(w)) == Applied(b, fields, w, d)
    decreases |fields|
  {
    hide Added;
    if fields != [] {
      var init, last := fields[..|fields| - 1], fields[|fields| - 1];
      ReducedShift(b, init, w, d);
      ReducedAdd(Applied(b, init, w, d), last, w, d);
    }
  }

  lemma ReducedAdd(b: seq<byte>, o: nat, w: nat, d: int)
    requires o + w <= |b|
    ensures Added(b, o, w, d % Modulus(w)) == Added(b, o, w, d)
  {
    hide Word, Modulus;
    ModAdd(d, 0, Word(b, o, w), Modulus(w));
  }

  /** `*FixupVA += Diff` */
  method AddWord(mem: array<byte>, o: nat, w: Width, d: nat)
    requires o + w <= mem.Length
    modifies mem
    ensures mem[..] == Added(old(mem[..]), o, w, d)
  {
    hide Word, Bytes, Modulus;
    Store(mem, o, Bytes((Word(mem[..], o, w) + d) % Modulus(w), w));
  }

  method Store(mem: array<byte>, o: nat, word: seq<byte>)
    requires o + |word| <= mem.Length
    modifies mem
    ensures mem[..] == old(mem[..o]) + word + old(mem[o + |word|..])
  {
    forall j | 0 <= j < |word| {
      mem[o + j] := word[j];
    }
  }

  lemma {:induction false} BlockPrefix(b: seq<byte>, at: nat, i: nat, n: nat)
    requires i <= n && at + HEADER + 2 * n <= |b|
    ensures BlockFields(b, at, i) <= BlockFields(b, at, n)
    decreases n
  {
    if i < n {
      BlockPrefix(b, at, i, n - 1);
    }
  }

  /** Fields taken so far have the properties of all. */
  lemma Prefix(some: seq<nat>, all: seq<nat>, size: nat, w: nat, from: nat, to: nat)
    requires some <= all && InRange(size, all, w) && OffTable(all, w, from, to)
    ensures InRange(size, some, w) && OffTable(some, w, from, to)
  {
  }

  /** What the walk reads is still what the table said at the start. */
  lemma ReadsAsBefore(was: seq<byte>, fields: seq<nat>, w: nat, d: int, from: nat, to: nat, p: nat, n: nat)
    requires InRange(|was|, fields, w) && OffTable(fields, w, from, to) && from <= p && p + n <= to <= |was|
    ensures Word(Applied(was, fields, w, d), p, n) == Word(was, p, n)
  {
    AppliedElsewhere(was, fields, w, d, p, n);
  }

  /** One block; `done` are the fields of the blocks before it. */
  method RelocateBlock(mem: array<byte>, block: nat, count: nat, w: Width, diff: nat,
                       ghost was: seq<byte>, ghost done: seq<nat>, ghost from: nat, ghost to: nat)
    requires |was| == mem.Length && from <= block && block + HEADER + 2 * count <= to <= |was|
    requires InRange(|was|, done + BlockFields(was, block, count), w)
    requires OffTable(done + BlockFields(was, block, count), w, from, to)
    requires InRange(|was|, done, w) && mem[..] == Applied(was, done, w, diff)
    modifies mem
    ensures mem[..] == Applied(was, done + BlockFields(was, block, count), w, diff)
  {
    hide Applied, Added, Field, Word, InRange, OffTable;
    ghost var all := done + BlockFields(was, block, count);
    ghost var fields := done;
    assert done + BlockFields(was, block, 0) == done;
    for i := 0 to count
      invariant fields == done + BlockFields(was, block, i) && InRange(|was|, fields, w)
      invariant mem[..] == Applied(was, fields, w, diff)
    {
      BlockPrefix(was, block, i, count);
      BlockPrefix(was, block, i + 1, count);
      Prefix(fields, all, |was|, w, from, to);
      Prefix(done + BlockFields(was, block, i + 1), all, |was|, w, from, to);
      ReadsAsBefore(was, fields, w, diff, from, to, block + HEADER + 2 * i, 2);
      ReadsAsBefore(was, fields, w, diff, from, to, block, 4);
      var entry := Word(mem[..], block + HEADER + 2 * i, 2);
      if entry != 0 {
        var target := (VirtualAddress(mem[..], block) + entry % 0x1000) % 0x1_0000_0000;
        assert done + BlockFields(was, block, i + 1) == fields + [target];
        StepsJoin(was, fields, w, diff, target);
        AddWord(mem, target, w, diff);
        fields := fields + [target];
      } else {
        assert done + BlockFields(was, block, i + 1) == fields;
      }
    }
  }

  /** The walk at `block`: it has applied `fields`, and what is left to read lists the rest of `all`. */
  ghost predicate Walking(was: seq<byte>, now: seq<byte>, w: nat, diff: int, from: nat, to: nat,
                          all: seq<nat>, block: nat, fields: seq<nat>)
  {
    && |now| == |was| && from <= block && to <= |was|
    && TableInImage(was, block) && TableEnd(was, block) == to && block + HEADER <= to
    && fields + Fields(was, block) == all
    && InRange(|was|, all, w) && OffTable(all, w, from, to)
    && InRange(|was|, fields, w) && now == Applied(was, fields, w, diff)
  }

  /** What the walk reads at a block is what the table said at the start. */
  lemma BlockReadsAsBefore(was: seq<byte>, now: seq<byte>, w: nat, diff: int, from: nat, to: nat,
                           all: seq<nat>, block: nat, fields: seq<nat>)
    requires Walking(was, now, w, diff, from, to, all, block, fields)
    ensures block + HEADER <= |now| == |was| && TableInImage(was, block)
    ensures VirtualAddress(now, block) == VirtualAddress(was, block)
            && SizeOfBlock(now, block) == SizeOfBlock(was, block)
    ensures VirtualAddress(was, block) == 0 ==> fields == all
    ensures VirtualAddress(was, block) != 0 && SizeOfBlock(was, block) != 0 ==> block + SizeOfBlock(was, block) <= |was|
  {
    hide Applied, Field, Word, InRange, OffTable, BlockFields;
    Prefix(fields, all, |was|, w, from, to);
    ReadsAsBefore(was, fields, w, diff, from, to, block, 4);
    ReadsAsBefore(was, fields, w, diff, from, to, block + 4, 4);
  }

  lemma WalkStarts(b: seq<byte>, at: nat, w: Width, diff: int)
    requires WellFormed(b, at, w)
    ensures Walking(b, b, w, diff, at, TableEnd(b, at), Fields(b, at), at, [])
  {
    hide Fields, TableInImage, TableEnd, Disjoint;
    NothingYet(b, w, diff, at, TableEnd(b, at));
  }

  /** The fields of one block, and where the walk goes from there. */
  lemma BlockIsNext(was: seq<byte>, now: seq<byte>, w: nat, diff: int, from: nat, to: nat,
                    all: seq<nat>, block: nat, fields: seq<nat>)
    requires Walking(was, now, w, diff, from, to, all, block, fields)
    requires VirtualAddress(was, block) != 0 && SizeOfBlock(was, block) != 0
    ensures var size := SizeOfBlock(was, block);
            && block + size <= |was| && TableInImage(was, block + size)
            && TableEnd(was, block + size) == to && block + size + HEADER <= to
            && block + HEADER + 2 * TotalCount(size) <= to
            && (size < HEADER ==> BlockFields(was, block, TotalCount(size)) == [])
            && (var more := fields + BlockFields(was, block, TotalCount(size));
                more + Fields(was, block + size) == all && InRange(|was|, more, w) && OffTable(more, w, from, to))
  {
    hide Applied, Field, Word, InRange, OffTable, BlockFields;
    var size := SizeOfBlock(was, block);
    var more := fields + BlockFields(was, block, TotalCount(size));
    NoEntries(was, block);
    assert more + Fields(was, block + size) == fields + Fields(was, block);
    Prefix(more, all, |was|, w, from, to);
  }

  /** The rest of a block that ends the walk by its size. */
  lemma WalkEndsHere(was: seq<byte>, now: seq<byte>, w: nat, diff: int, from: nat, to: nat,
                     all: seq<nat>, block: nat, fields: seq<nat>)
    requires Walking(was, now, w, diff, from, to, all, block, fields)
    requires VirtualAddress(was, block) == 0 || SizeOfBlock(was, block) == 0
    ensures InRange(|was|, all, w) && now == Applied(was, all, w, diff)
  {
    hide Applied, Word, InRange, OffTable;
    assert fields == all;
  }

  /** LdkpRelocateImage: the walk over the blocks. */
  method RelocateImage(mem: array<byte>, table: Option<nat>, w: Width, base: nat, preferred: nat)
    requires table.Some? ==> WellFormed(mem[..], table.value, w)
    modifies mem
    ensures mem[..] == Relocated(old(mem[..]), table, w, base, preferred)
  {
    hide Applied, VirtualAddress, SizeOfBlock, InRange, OffTable, Disjoint, Walking, Fields, TableInImage, TableEnd;
    if table == None {
      return;
    }
    var diff := (base - preferred) % Modulus(w);
    var block := table.value;
    ghost var was, from, to := mem[..], block, TableEnd(mem[..], block);
    ghost var all, fields := Fields(was, block), [];
    WalkStarts(was, block, w, diff);
    BlockReadsAsBefore(was, was, w, diff, from, to, all, block, fields);
    while VirtualAddress(mem[..], block) != 0
      invariant block + HEADER <= mem.Length == |was|
      invariant Walking(was, mem[..], w, diff, from, to, all, block, fields)
      decreases mem.Length - block
    {
      BlockReadsAsBefore(was, mem[..], w, diff, from, to, all, block, fields);
      var size := SizeOfBlock(mem[..], block);
      if size == 0 {
        break;
      }
      fields := RelocateNext(mem, block, size, w, diff, was, fields, from, to, all);
      block := block + size;
      BlockReadsAsBefore(was, mem[..], w, diff, from, to, all, block, fields);
    }
    BlockReadsAsBefore(was, mem[..], w, diff, from, to, all, block, fields);
    WalkEndsHere(was, mem[..], w, diff, from, to, all, block, fields);
    ReducedShift(was, all, w, base - preferred);
  }

  /** One round of the walk: the fields of a block that is long enough to have any. */
  method RelocateNext(mem: array<byte>, block: nat, size: nat, w: Width, diff: nat, ghost was: seq<byte>,
                      ghost fields: seq<nat>, ghost from: nat, ghost to: nat, ghost all: seq<nat>)
    returns (ghost more: seq<nat>)
    requires Walking(was, mem[..], w, diff, from, to, all, block, fields)
    requires VirtualAddress(was, block) != 0 && size == SizeOfBlock(was, block) != 0
    modifies mem
    ensures block + size <= mem.Length && Walking(was, mem[..], w, diff, from, to, all, block + size, more)
  {
    hide Applied, Field, Word, InRange, OffTable, BlockFields, Fields, TableInImage, TableEnd, VirtualAddress;
    BlockIsNext(was, mem[..], w, diff, from, to, all, block, fields);
    more := fields + BlockFields(was, block, TotalCount(size));
    if size >= HEADER {
      RelocateBlock(mem, block, TotalCount(size), w, diff, was, fields, from, to);
    } else {
      assert more == fields;
    }
  }

  lemma NoEntries(b: seq<byte>, at: nat)
    requires at + HEADER <= |b|
    ensures BlockFields(b, at, 0) == []
  {
  }

  lemma NothingYet(b: seq<byte>, w: nat, d: int, from: nat, to: nat)
    ensures InRange(|b|, [], w) && OffTable([], w, from, to) && Applied(b, [], w, d) == b
  {
  }

  /** Relocating an image again, from where it is to somewhere else, is relocating it there at once; and
      relocating it back restores it. */
  lemma RelocationsCompose(b: seq<byte>, table: Option<nat>, w: Width, preferred: nat, first: nat, second: nat)
    requires table.Some? ==> WellFormed(b, table.value, w)
    ensures var once := Relocated(b, table, w, first, preferred);
            && (table.Some? ==> WellFormed(once, table.value, w))
            && Relocated(once, table, w, second, first) == Relocated(b, table, w, second, preferred)
            && Relocated(once, table, w, preferred, first) == b
  {
    hide Applied, Fields, Disjoint;
    if table.Some? {
      var fields := Fields(b, table.value);
      TableSurvives(b, table.value, w, first - preferred);
      ShiftsAdd(b, fields, w, first - preferred, second - first);
      ShiftBack(b, fields, w, first - preferred);
    }
  }

  /** The meaning of the result: each field moved with the image, everything else as it was. */
  lemma RelocatedFields(b: seq<byte>, at: nat, w: Width, base: nat, preferred: nat)
    requires WellFormed(b, at, w)
    ensures var r, fields := Relocated(b, Some(at), w, base, preferred), Fields(b, at);
            && (forall k :: 0 <= k < |fields| ==>
                  Word(r, fields[k], w) == (Word(b, fields[k], w) + base - preferred) % Modulus(w))
            && (forall j :: 0 <= j < |b| && (forall k :: 0 <= k < |fields| ==> j < fields[k] || fields[k] + w <= j)
                  ==> r[j] == b[j])
  {
    hide Applied, Fields, Disjoint, Word;
    var fields := Fields(b, at);
    forall k | 0 <= k < |fields|
      ensures Word(Applied(b, fields, w, base - preferred), fields[k], w) ==
              (Word(b, fields[k], w) + base - preferred) % Modulus(w)
    {
      AppliedHere(b, fields, w, base - preferred, k);
    }
    forall j | 0 <= j < |b| && (forall k :: 0 <= k < |fields| ==> j < fields[k] || fields[k] + w <= j)
      ensures Applied(b, fields, w, base - preferred)[j] == b[j]
    {
      ByteElsewhere(b, fields, w, base - preferred, j);
    }
  }

  // ---------------------------------------------------------------- tables as a linker writes them

  /** One entry: a type in the upper four bits, an offset into the page below. */
  datatype Entry = Entry(kind: nat, offset: nat)
  {
    predicate Valid() { kind < 0x10 && offset < 0x1000 }

    /** Padding up to a whole number of pairs. */
    predicate Padding() { kind == 0 && offset == 0 }
  }

  /** A block of the table; its size counts the header and two bytes for each entry. */
  datatype Page = Page(address: u32, entries: seq<Entry>)
  {
    ghost predicate Valid() {
      && address != 0 && 8 + 2 * |entries| < 0x1_0000_0000
      && forall k :: 0 <= k < |entries| ==> entries[k].Valid()
    }
  }

  function TwoBytes(v: u16): seq<byte> {
    [v % 0x100, v / 0x100]
  }

  function FourBytes(v: u32): seq<byte> {
    [v % 0x100, v / 0x100 % 0x100, v / 0x1_0000 % 0x100, v / 0x100_0000]
  }

  function EncodedEntries(entries: seq<Entry>): (r: seq<byte>)
    requires forall k :: 0 <= k < |entries| ==> entries[k].Valid()
    ensures |r| == 2 * |entries|
  {
    if entries == [] then []
    else
      var e := entries[|entries| - 1];
      assert e.Valid();
      EncodedEntries(entries[..|entries| - 1]) + TwoBytes(e.kind * 0x1000 + e.offset)
  }

  function EncodedPage(page: Page): (r: seq<byte>)
    requires page.Valid()
    ensures |r| == 8 + 2 * |page.entries|
  {
    FourBytes(page.address) + FourBytes(8 + 2 * |page.entries|) + EncodedEntries(page.entries)
  }

  /** The pages one after the other, and an empty block behind them. */
  function EncodedTable(pages: seq<Page>): (r: seq<byte>)
    requires forall k :: 0 <= k < |pages| ==> pages[k].Valid()
    ensures |r| >= 8
  {
    if pages == [] then [0, 0, 0, 0, 0, 0, 0, 0] else EncodedPage(pages[0]) + EncodedTable(pages[1..])
  }

  /** Page plus offset, for each entry that is not padding. */
  function PageFields(address: u32, entries: seq<Entry>): seq<nat> {
    if entries == [] then []
    else
      var e := entries[|entries| - 1];
      PageFields(address, entries[..|entries| - 1]) +
      (if e.Padding() then [] else [(address + e.offset) % 0x1_0000_0000])
  }

  function TableFields(pages: seq<Page>): seq<nat> {
    if pages == [] then [] else PageFields(pages[0].address, pages[0].entries) + TableFields(pages[1..])
  }

  /** These bytes stand in the image at that place. */
  predicate StandsAt(b: seq<byte>, at: nat, bytes: seq<byte>) {
    at + |bytes| <= |b| && b[at..at + |bytes|] == bytes
  }

  lemma PartsStand(b: seq<byte>, at: nat, left: seq<byte>, right: seq<byte>)
    requires StandsAt(b, at, left + right)
    ensures StandsAt(b, at, left) && StandsAt(b, at + |left|, right)
  {
    assert b[at..at + |left + right|][..|left|] == b[at..at + |left|];
    assert b[at..at + |left + right|][|left|..] == b[at + |left|..at + |left| + |right|];
  }

  lemma TwoBytesRead(b: seq<byte>, at: nat, v: u16)
    requires StandsAt(b, at, TwoBytes(v))
    ensures Word(b, at, 2) == v
  {
    assert Field(b, at, 2) == TwoBytes(v);
    OneMoreByte(v % 0x100, [v / 0x100]);
    OneMoreByte(v / 0x100, []);
    assert TwoBytes(v) == [v % 0x100] + ([v / 0x100] + []);
  }

  lemma OneMoreByte(low: byte, rest: seq<byte>)
    ensures Value([low] + rest) == low as int + 0x100 * Value(rest)
  {
    assert ([low] + rest)[1..] == rest;
  }

  lemma FourBytesRead(b: seq<byte>, at: nat, v: u32)
    requires StandsAt(b, at, FourBytes(v))
    ensures Word(b, at, 4) == v
  {
    hide Value;
    var f := FourBytes(v);
    assert Field(b, at, 4) == f;
    assert f == [f[0]] + ([f[1]] + ([f[2]] + ([f[3]] + [])));
    OneMoreByte(f[0], [f[1]] + ([f[2]] + ([f[3]] + [])));
    OneMoreByte(f[1], [f[2]] + ([f[3]] + []));
    OneMoreByte(f[2], [f[3]] + []);
    OneMoreByte(f[3], []);
    NoBytes();
    FourDigits(v);
  }

  lemma NoBytes()
    ensures Value([]) == 0
  {
  }

  lemma FourDigits(v: u32)
    ensures v == v % 0x100 + 0x100 * (v / 0x100 % 0x100 + 0x100 * (v / 0x1_0000 % 0x100 + 0x100 * (v / 0x100_0000)))
  {
  }

  lemma HeaderIsRead(b: seq<byte>, at: nat, page: Page)
    requires page.Valid() && StandsAt(b, at, EncodedPage(page))
    ensures at + HEADER <= |b| && VirtualAddress(b, at) == page.address
    ensures SizeOfBlock(b, at) == 8 + 2 * |page.entries|
    ensures StandsAt(b, at + HEADER, EncodedEntries(page.entries))
  {
    hide Word, EncodedEntries, StandsAt, FourBytes;
    var address, size := FourBytes(page.address), FourBytes(8 + 2 * |page.entries|);
    FourLong(page.address);
    FourLong(8 + 2 * |page.entries|);
    PartsStand(b, at, address + size, EncodedEntries(page.entries));
    PartsStand(b, at, address, size);
    FourBytesRead(b, at, page.address);
    FourBytesRead(b, at + 4, 8 + 2 * |page.entries|);
    StandsInside(b, at + HEADER, EncodedEntries(page.entries));
  }

  lemma FourLong(v: u32)
    ensures |FourBytes(v)| == 4
  {
  }

  lemma StandsInside(b: seq<byte>, at: nat, bytes: seq<byte>)
    requires StandsAt(b, at, bytes)
    ensures at + |bytes| <= |b|
  {
  }

  /** The entries of a block are read as they were written. */
  lemma {:induction false} EntriesAreRead(b: seq<byte>, at: nat, address: u32, entries: seq<Entry>)
    requires forall k :: 0 <= k < |entries| ==> entries[k].Valid()
    requires at + HEADER <= |b| && VirtualAddress(b, at) == address
    requires StandsAt(b, at + HEADER, EncodedEntries(entries))
    ensures at + HEADER + 2 * |entries| <= |b| && BlockFields(b, at, |entries|) == PageFields(address, entries)
  {
    hide Word, StandsAt, VirtualAddress;
    StandsInside(b, at + HEADER, EncodedEntries(entries));
    if entries != [] {
      var init, e := entries[..|entries| - 1], entries[|entries| - 1];
      var v := e.kind * 0x1000 + e.offset;
      PartsStand(b, at + HEADER, EncodedEntries(init), TwoBytes(v));
      EntriesAreRead(b, at, address, init);
      TwoBytesRead(b, at + HEADER + 2 * |init|, v);
      EntryIsSplit(e.kind, e.offset);
    }
  }

  lemma EntryIsSplit(kind: nat, offset: nat)
    requires offset < 0x1000
    ensures (kind * 0x1000 + offset) % 0x1000 == offset
    ensures kind * 0x1000 + offset == 0 <==> kind == 0 && offset == 0
  {
  }

  /** What a linker wrote is what the walk reads: page plus offset for every entry of every page, in order. */
  lemma {:induction false} TableIsRead(b: seq<byte>, at: nat, pages: seq<Page>)
    requires forall k :: 0 <= k < |pages| ==> pages[k].Valid()
    requires StandsAt(b, at, EncodedTable(pages))
    ensures TableInImage(b, at) && TableEnd(b, at) == at + |EncodedTable(pages)|
    ensures Fields(b, at) == TableFields(pages)
    decreases |pages|
  {
    hide Word, BlockFields, PageFields, VirtualAddress, SizeOfBlock, StandsAt, EncodedPage;
    StandsInside(b, at, EncodedTable(pages));
    if pages == [] {
      EmptyBlock(b, at);
    } else {
      var page := pages[0];
      PartsStand(b, at, EncodedPage(page), EncodedTable(pages[1..]));
      HeaderIsRead(b, at, page);
      EntriesAreRead(b, at, page.address, page.entries);
      TableIsRead(b, at + |EncodedPage(page)|, pages[1..]);
    }
  }

  lemma EmptyBlock(b: seq<byte>, at: nat)
    requires StandsAt(b, at, [0, 0, 0, 0, 0, 0, 0, 0])
    ensures at + HEADER <= |b| && VirtualAddress(b, at) == 0
  {
    assert FourBytes(0) + FourBytes(0) == [0, 0, 0, 0, 0, 0, 0, 0];
    PartsStand(b, at, FourBytes(0), FourBytes(0));
    FourBytesRead(b, at, 0);
  }

  /** Relocating an image with such a table moves exactly the fields that the pages list. */
  lemma PagesAreRelocated(b: seq<byte>, at: nat, pages: seq<Page>, w: Width, base: nat, preferred: nat)
    requires forall k :: 0 <= k < |pages| ==> pages[k].Valid()
    requires StandsAt(b, at, EncodedTable(pages))
    requires InRange(|b|, TableFields(pages), w) && Disjoint(TableFields(pages), w)
    requires OffTable(TableFields(pages), w, at, at + |EncodedTable(pages)|)
    ensures WellFormed(b, at, w)
    ensures var r, fields := Relocated(b, Some(at), w, base, preferred), TableFields(pages);
            && (forall k :: 0 <= k < |fields| ==>
                  Word(r, fields[k], w) == (Word(b, fields[k], w) + base - preferred) % WordSize(w))
            && (forall j :: 0 <= j < |b| && (forall k :: 0 <= k < |fields| ==> j < fields[k] || fields[k] + w <= j)
                  ==> r[j] == b[j])
  {
    hide Applied, Fields, Disjoint, Word, TableFields, EncodedTable, TableInImage, TableEnd, StandsAt, Modulus;
    TableIsRead(b, at, pages);
    RelocatedFields(b, at, w, base, preferred);
    ModulusIsWordSize(w);
  }

  lemma ModulusIsWordSize(w: Width)
    ensures Modulus(w) == WordSize(w)
  {
    assert Modulus(1) == 0x100 && Modulus(2) == 0x1_0000 && Modulus(3) == 0x100_0000 && Modulus(4) == 0x1_0000_0000;
    assert Modulus(5) == 0x100 * Modulus(4) && Modulus(6) == 0x100 * Modulus(5) && Modulus(7) == 0x100 * Modulus(6);
    assert Modulus(8) == 0x100 * Modulus(7);
  }
}
