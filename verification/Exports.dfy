/** Export tables and the import tables bound to them: the search through the sorted name table, the
    two ways to name an export, and the loop that writes the addresses into an import table. */
module Exports {
  import opened Wrappers

  /** The characters of a string, without the NUL that ends it. */
  type Name = seq<byte>

  // ---------------------------------------------------------------- strcmp

  /** The sign of strcmp. */
  function Compare(a: Name, b: Name): int {
    if a == [] && b == [] then 0
    else if a == [] then -1
    else if b == [] then 1
    else if a[0] < b[0] then -1
    else if a[0] > b[0] then 1
    else Compare(a[1..], b[1..])
  }

  lemma {:induction false} CompareIsOrder(a: Name, b: Name)
    ensures Compare(a, b) == -Compare(b, a)
    ensures Compare(a, b) == 0 <==> a == b
  {
    if a != [] && b != [] {
      CompareIsOrder(a[1..], b[1..]);
      assert a == [a[0]] + a[1..] && b == [b[0]] + b[1..];
    }
  }

  /** `a` comes first where they differ first, by its end or by its byte there. */
  ghost predicate Before(a: Name, b: Name, k: nat) {
    && k <= |a| && k < |b| && a[..k] == b[..k]
    && (k == |a| || a[k] < b[k])
  }

  /** The order of the comparison is that of a dictionary. */
  lemma {:induction false} CompareIsLexical(a: Name, b: Name)
    ensures Compare(a, b) < 0 <==> exists k: nat :: Before(a, b, k)
  {
    if a == [] || b == [] || a[0] != b[0] {
      assert Before(a, b, 0) <==> b != [] && (a == [] || a[0] < b[0]);
      assert forall k: nat :: Before(a, b, k) && k > 0 ==> a[..k][0] == b[..k][0];
    } else {
      CompareIsLexical(a[1..], b[1..]);
      if k: nat :| Before(a[1..], b[1..], k) {
        LaterByOne(a, b, k);
      }
      if k: nat :| Before(a, b, k) {
        assert k > 0;
        LaterByOne(a, b, k - 1);
      }
    }
  }

  lemma LaterByOne(a: Name, b: Name, k: nat)
    requires a != [] && b != [] && a[0] == b[0]
    ensures Before(a[1..], b[1..], k) <==> Before(a, b, k + 1)
  {
    if k + 1 <= |a| && k + 1 < |b| {
      assert a[..k + 1] == [a[0]] + a[1..][..k] && b[..k + 1] == [b[0]] + b[1..][..k];
      assert a[1..][..k] == a[..k + 1][1..] && b[1..][..k] == b[..k + 1][1..];
    }
  }

  lemma {:induction false} CompareIsTransitive(a: Name, b: Name, c: Name)
    requires Compare(a, b) < 0 && Compare(b, c) < 0
    ensures Compare(a, c) < 0
  {
    if a != [] && b != [] && c != [] && a[0] == b[0] == c[0] {
      CompareIsTransitive(a[1..], b[1..], c[1..]);
    }
  }

  /** "Lexically ordered": each name before the next. */
  predicate Ascending(names: seq<Name>) {
    forall i :: 0 <= i < |names| - 1 ==> Compare(names[i], names[i + 1]) < 0
  }

  lemma {:induction false} AscendingApart(names: seq<Name>, i: nat, j: nat)
    requires Ascending(names) && i < j < |names|
    ensures Compare(names[i], names[j]) < 0
    decreases j - i
  {
    if i + 1 < j {
      AscendingApart(names, i + 1, j);
      CompareIsTransitive(names[i], names[i + 1], names[j]);
    }
  }

  // ---------------------------------------------------------------- the name table

  /** What LdkpNameToOrdinal returns for a name that is not there. */
  const NO_ORDINAL: u16 := 0xFFFF

  /** LdkpNameToOrdinal: the tables are given by where they start and how many entries are left. */
  function NameToOrdinal(name: Name, names: seq<Name>, ordinals: seq<u16>): u16
    requires |names| == |ordinals|
  {
    if |names| == 0 then NO_ORDINAL
    else
      var split := |names| / 2;
      var compared := Compare(name, names[split]);
      if compared == 0 then ordinals[split]
      else if |names| == 1 then NO_ORDINAL
      else if compared < 0 then NameToOrdinal(name, names[..split], ordinals[..split])
      else NameToOrdinal(name, names[split + 1..], ordinals[split + 1..])
  }

  /** The same by looking at one entry after the other. */
  function Scan(name: Name, names: seq<Name>, ordinals: seq<u16>): u16
    requires |names| == |ordinals|
  {
    if names == [] then NO_ORDINAL
    else if names[0] == name then ordinals[0]
    else Scan(name, names[1..], ordinals[1..])
  }

  lemma {:induction false} SearchFinds(name: Name, names: seq<Name>, ordinals: seq<u16>, i: nat)
    requires |names| == |ordinals| && Ascending(names) && i < |names| && names[i] == name
    ensures NameToOrdinal(name, names, ordinals) == ordinals[i]
    decreases |names|
  {
    hide Compare;
    var split := |names| / 2;
    CompareIsOrder(name, names[split]);
    if i < split {
      AscendingApart(names, i, split);
      SearchFinds(name, names[..split], ordinals[..split], i);
    } else if i > split {
      AscendingApart(names, split, i);
      SearchFinds(name, names[split + 1..], ordinals[split + 1..], i - split - 1);
    }
  }

  /** This direction holds of unsorted tables too. */
  lemma {:induction false} SearchMisses(name: Name, names: seq<Name>, ordinals: seq<u16>)
    requires |names| == |ordinals| && name !in names
    ensures NameToOrdinal(name, names, ordinals) == NO_ORDINAL
    decreases |names|
  {
    if names != [] {
      var split := |names| / 2;
      CompareIsOrder(name, names[split]);
      assert names[split] in names;
      if |names| > 1 {
        SearchMisses(name, names[..split], ordinals[..split]);
        SearchMisses(name, names[split + 1..], ordinals[split + 1..]);
      }
    }
  }

  lemma {:induction false} ScanFinds(name: Name, names: seq<Name>, ordinals: seq<u16>, i: nat)
    requires |names| == |ordinals| && Ascending(names) && i < |names| && names[i] == name
    ensures Scan(name, names, ordinals) == ordinals[i]
    decreases |names|
  {
    if i > 0 {
      AscendingApart(names, 0, i);
      CompareIsOrder(names[0], name);
      ScanFinds(name, names[1..], ordinals[1..], i - 1);
    }
  }

  lemma {:induction false} ScanMisses(name: Name, names: seq<Name>, ordinals: seq<u16>)
    requires |names| == |ordinals| && name !in names
    ensures Scan(name, names, ordinals) == NO_ORDINAL
    decreases |names|
  {
    if names != [] {
      ScanMisses(name, names[1..], ordinals[1..]);
    }
  }

  /** On a sorted table the search is the scan. */
  lemma SearchIsScan(name: Name, names: seq<Name>, ordinals: seq<u16>)
    requires |names| == |ordinals| && Ascending(names)
    ensures NameToOrdinal(name, names, ordinals) == Scan(name, names, ordinals)
  {
    if name in names {
      var i :| 0 <= i < |names| && names[i] == name;
      SearchFinds(name, names, ordinals, i);
      ScanFinds(name, names, ordinals, i);
    } else {
      SearchMisses(name, names, ordinals);
      ScanMisses(name, names, ordinals);
    }
  }

  // ---------------------------------------------------------------- LdkGetProcedureAddress

  /** An export directory; `start` and `size` say where it lies in the image. */
  datatype Directory = Directory(
    ordinalBase: u32,
    functions: seq<u32>,
    names: seq<Name>,
    ordinals: seq<u16>,
    start: nat,
    size: nat)

  datatype Failure = InvalidParameter | OrdinalNotFound | ProcedureNotFound

  datatype Lookup =
    | Found(rva: u32)
    /** The address of a forwarder string. */
    | Forwarder(rva: u32)
    | Failed(failure: Failure)

  predicate WellFormed(d: Directory) {
    |d.names| == |d.ordinals| && |d.functions| < 0x1_0000_0000
  }

  /** What strcmp sees of a buffer that a NUL was put behind. */
  function CString(buffer: Name): Name {
    if buffer == [] || buffer[0] == 0 then [] else [buffer[0]] + CString(buffer[1..])
  }

  const NAME_BUFFER: nat := 64

  /** The function table at an index already checked against its size. */
  function At(d: Directory, index: nat, missing: Failure): Lookup
    requires index < |d.functions|
  {
    var rva := d.functions[index];
    if rva == 0 then Failed(missing)
    else if d.start <= rva < d.start + d.size then Forwarder(rva)
    else Found(rva)
  }

  /** LdkGetProcedureAddress on an image; a number other than zero takes precedence. */
  function GetProcedureAddress(d: Directory, name: Option<Name>, number: u32): Lookup
    requires WellFormed(d)
  {
    if number != 0 then
      var ordinal := number % 0x1_0000;
      if ordinal < d.ordinalBase || ordinal >= (d.ordinalBase + |d.functions|) % 0x1_0000_0000
      then Failed(OrdinalNotFound)
      else At(d, ordinal - d.ordinalBase, OrdinalNotFound)
    else if name.Some? then
      if |name.value| > NAME_BUFFER - 2 then Failed(InvalidParameter)
      else
        var index := NameToOrdinal(CString(name.value), d.names, d.ordinals);
        if index >= |d.functions| then Failed(ProcedureNotFound)
        else At(d, index, ProcedureNotFound)
    else Failed(InvalidParameter)
  }

  function ByName(d: Directory, name: Name): Lookup
    requires WellFormed(d)
  {
    GetProcedureAddress(d, Some(name), 0)
  }

  function ByNumber(d: Directory, number: u32): Lookup
    requires WellFormed(d)
  {
    GetProcedureAddress(d, None, number)
  }

  /** The same export, or none either way. */
  predicate Agree(a: Lookup, b: Lookup) {
    a == b || (a.Failed? && b.Failed?)
  }

  /** The function table has nothing at this index. */
  predicate Empty(d: Directory, index: nat) {
    index >= |d.functions| || d.functions[index] == 0
  }

  /** An export is the same by its name and by its ordinal.  The sum that bounds the ordinals is taken
      in 32 bits: once it wraps, every lookup by ordinal fails, whether there is a function or not. */
  lemma ByNameIsByOrdinal(d: Directory, name: Name, i: nat)
    requires WellFormed(d) && Ascending(d.names)
    requires |name| <= NAME_BUFFER - 2 && i < |d.names| && d.names[i] == CString(name)
    requires 1 <= d.ordinalBase + d.ordinals[i] <= 0xFFFF
    ensures Agree(ByName(d, name), ByNumber(d, d.ordinalBase + d.ordinals[i])) <==>
            Empty(d, d.ordinals[i]) || d.ordinalBase + |d.functions| < 0x1_0000_0000
  {
    hide ByName, ByNumber, CString, Ascending, At;
    ByNameAt(d, name, i);
    NumberIsChecked(d, d.ordinalBase + d.ordinals[i]);
    AtAgrees(d, d.ordinals[i]);
  }

  /** A lookup of an exported name. */
  lemma ByNameAt(d: Directory, name: Name, i: nat)
    requires WellFormed(d) && Ascending(d.names)
    requires |name| <= NAME_BUFFER - 2 && i < |d.names| && d.names[i] == CString(name)
    ensures ByName(d, name) == if d.ordinals[i] < |d.functions| then At(d, d.ordinals[i], ProcedureNotFound)
                               else Failed(ProcedureNotFound)
  {
    hide CString, NameToOrdinal, Ascending, At;
    SearchFinds(CString(name), d.names, d.ordinals, i);
  }

  lemma AtAgrees(d: Directory, index: nat)
    ensures index < |d.functions| ==> Agree(At(d, index, ProcedureNotFound), At(d, index, OrdinalNotFound))
    ensures index < |d.functions| ==> (At(d, index, ProcedureNotFound).Failed? <==> Empty(d, index))
  {
  }

  /** A lookup by ordinal, for a number of 16 bits. */
  lemma NumberIsChecked(d: Directory, number: u32)
    requires WellFormed(d) && 1 <= number <= 0xFFFF && d.ordinalBase <= number
    ensures ByNumber(d, number) ==
            if d.ordinalBase + |d.functions| < 0x1_0000_0000 && number - d.ordinalBase < |d.functions|
            then At(d, number - d.ordinalBase, OrdinalNotFound) else Failed(OrdinalNotFound)
  {
    hide At;
    assert number % 0x1_0000 == number;
    var sum := d.ordinalBase + |d.functions|;
    assert sum >= 0x1_0000_0000 ==> sum % 0x1_0000_0000 == sum - 0x1_0000_0000;
  }

  /** A name has to fit a buffer of 64 bytes with two to spare. */
  lemma LongNamesFail(d: Directory, name: Name)
    requires WellFormed(d)
    ensures ByName(d, name) == Failed(InvalidParameter) <==> |name| > 62
  {
    hide NameToOrdinal, CString;
  }

  /** A name that is not exported is reported missing, except that the ordinal standing for "no name"
      is itself looked up once there are more than 0xFFFF functions. */
  lemma MissingNameFails(d: Directory, name: Name)
    requires WellFormed(d) && |name| <= NAME_BUFFER - 2 && CString(name) !in d.names
    ensures ByName(d, name) == Failed(ProcedureNotFound) <==>
            |d.functions| <= 0xFFFF || d.functions[0xFFFF] == 0
  {
    SearchMisses(CString(name), d.names, d.ordinals);
  }

  /** It is the count in the header that makes the sum wrap: with the largest count there can be, from base
      one on.  A well-formed table then has as many entries. */
  lemma WrappedBound()
    ensures var d := Directory(1, seq(0xFFFF_FFFF, _ => 0x1000), [[0x61]], [0], 0, 0);
            WellFormed(d) && ByName(d, [0x61]) == Found(0x1000) && ByNumber(d, 1) == Failed(OrdinalNotFound)
  {
    var d := Directory(1, seq(0xFFFF_FFFF, _ => 0x1000), [[0x61]], [0], 0, 0);
    assert CString([0x61]) == [0x61] by { assert [0x61 as byte][1..] == []; }
    SearchFinds([0x61], d.names, d.ordinals, 0);
  }

  /** With one function too many, a name that is not exported is found. */
  lemma MissingNameIsFound()
    ensures var d := Directory(0, seq(0x1_0000, _ => 0x1000), [], [], 0, 0);
            WellFormed(d) && ByName(d, [0x61]) == Found(0x1000)
  {
    var d := Directory(0, seq(0x1_0000, _ => 0x1000), [], [], 0, 0);
    assert NameToOrdinal(CString([0x61]), d.names, d.ordinals) == NO_ORDINAL;
  }

  /** Up to that many functions, what is found by name is exactly what the tables say. */
  lemma NamedExportsAreFound(d: Directory, name: Name, found: Lookup)
    requires WellFormed(d) && Ascending(d.names) && |d.functions| <= 0xFFFF && |name| <= NAME_BUFFER - 2
    requires !found.Failed?
    ensures ByName(d, name) == found <==>
            exists i :: 0 <= i < |d.names| && d.names[i] == CString(name) && d.ordinals[i] < |d.functions|
                        && At(d, d.ordinals[i], ProcedureNotFound) == found
  {
    var s := CString(name);
    if s in d.names {
      var i :| 0 <= i < |d.names| && d.names[i] == s;
      SearchFinds(s, d.names, d.ordinals, i);
      forall j | 0 <= j < |d.names| && d.names[j] == s
        ensures j == i
      {
        CompareIsOrder(s, s);
        if j < i { AscendingApart(d.names, j, i); } else if i < j { AscendingApart(d.names, i, j); }
      }
    } else {
      SearchMisses(s, d.names, d.ordinals);
    }
  }

  // ---------------------------------------------------------------- binding an import table

  /** A pointer-sized cell of the image. */
  type Cell = nat

  /** The module imports are taken from: how wide pointers are, where it lies, what it exports, what its
      forwarders come to (zero for failure), and the names in the importing image by their offset. */
  datatype Exporter = Exporter(width: Width, base: Cell, exports: Directory, forwarded: u32 -> Cell,
                               nameAt: Cell -> Name)

  /** IMAGE_SNAP_BY_ORDINAL looks at the highest bit of a pointer. */
  predicate IsOrdinal(w: Width, entry: Cell) {
    entry >= WordSize(w) / 2
  }

  /** LdkGetRoutineAddress for one thunk; zero is failure. */
  function Resolve(m: Exporter, entry: Cell): Cell
    requires WellFormed(m.exports)
  {
    var found := if IsOrdinal(m.width, entry) then GetProcedureAddress(m.exports, None, entry % 0x1_0000)
                 else GetProcedureAddress(m.exports, Some(m.nameAt(entry)), 0);
    match found
    case Found(rva) => (m.base + rva) % WordSize(m.width)
    case Forwarder(rva) => m.forwarded(rva)
    case Failed(_) => 0
  }

  datatype Status = Success | OrdinalMissing | ProcedureMissing

  function Missing(w: Width, entry: Cell): Status {
    if IsOrdinal(w, entry) then OrdinalMissing else ProcedureMissing
  }

  /** What is written for the lookup entries: their addresses, up to and with the first failure. */
  function Written(m: Exporter, entries: seq<Cell>): (r: seq<Cell>)
    requires WellFormed(m.exports)
    ensures |r| <= |entries|
  {
    if entries == [] then []
    else if Resolve(m, entries[0]) == 0 then [0]
    else [Resolve(m, entries[0])] + Written(m, entries[1..])
  }

  predicate AllResolve(m: Exporter, entries: seq<Cell>)
    requires WellFormed(m.exports)
  {
    forall k :: 0 <= k < |entries| ==> Resolve(m, entries[k]) != 0
  }

  /** The addresses stand at the places of their entries; the table is complete exactly on success. */
  lemma {:induction false} WrittenIsResolved(m: Exporter, entries: seq<Cell>)
    requires WellFormed(m.exports)
    ensures var w := Written(m, entries);
            && (forall k :: 0 <= k < |w| ==> w[k] == Resolve(m, entries[k]))
            && (forall k :: 0 <= k < |w| - 1 ==> w[k] != 0)
            && (AllResolve(m, entries) <==> 0 !in w)
            && (AllResolve(m, entries) ==> |w| == |entries|)
            && (!AllResolve(m, entries) ==> w != [] && w[|w| - 1] == 0)
  {
    hide Resolve;
    if entries != [] {
      WrittenIsResolved(m, entries[1..]);
      assert AllResolve(m, entries) ==> AllResolve(m, entries[1..]);
      if Resolve(m, entries[0]) != 0 && AllResolve(m, entries[1..]) {
        assert forall k :: 0 < k < |entries| ==> entries[k] == entries[1..][k - 1];
      }
    }
  }

  /** The entries of a table up to its terminator. */
  predicate IsTable(mem: seq<Cell>, start: nat, n: nat) {
    && start + n < |mem| && mem[start + n] == 0
    && forall j :: start <= j < start + n ==> mem[j] != 0
  }

  /** Memory before and after: the addresses where they belong, everything else as it was. */
  ghost predicate IsBound(m: Exporter, was: seq<Cell>, now: seq<Cell>, entries: seq<Cell>, first: nat, status: Status)
    requires WellFormed(m.exports)
  {
    var w := Written(m, entries);
    && first + |w| <= |was|
    && now == was[..first] + w + was[first + |w|..]
    && (status == Success <==> AllResolve(m, entries))
    && (status != Success ==> w != [] && status == Missing(m.width, entries[|w| - 1]))
  }

  /** The thunk loop of LdkpBuildImportDescriptors.  The addresses may go over the lookup table itself,
      which is what happens without OriginalFirstThunk, or behind the reading position. */
  method BindThunks(m: Exporter, mem: array<Cell>, look: nat, first: nat, ghost n: nat) returns (status: Status)
    requires WellFormed(m.exports)
    requires IsTable(mem[..], look, n) && first + n <= mem.Length
    requires first <= look || look + n < first
    modifies mem
    ensures IsBound(m, old(mem[..]), mem[..], old(mem[look..look + n]), first, status)
  {
    hide Resolve, Written, AllResolve, IsBound;
    ghost var entries := mem[look..look + n];
    ghost var was := mem[..];
    var k := 0;
    status := Success;
    while mem[look + k] != 0
      invariant k <= n
      invariant forall j :: look + k <= j <= look + n ==> mem[j] == was[j]
      invariant forall j :: 0 <= j < k ==> Resolve(m, entries[j]) != 0 && mem[first + j] == Resolve(m, entries[j])
      invariant forall j :: 0 <= j < mem.Length && !(first <= j < first + k) ==> mem[j] == was[j]
      decreases n - k
    {
      assert mem[look + k] == entries[k];
      var entry := mem[look + k];
      mem[first + k] := Resolve(m, entry);
      if mem[first + k] == 0 {
        status := Missing(m.width, entry);
        BoundSoFar(m, was, mem[..], entries, first, status, k);
        return;
      }
      k := k + 1;
    }
    BoundSoFar(m, was, mem[..], entries, first, status, n);
  }

  /** How the loop ends: behind the last entry, or at the first that does not resolve. */
  lemma BoundSoFar(m: Exporter, was: seq<Cell>, now: seq<Cell>, entries: seq<Cell>, first: nat, status: Status, k: nat)
    requires WellFormed(m.exports) && |now| == |was| && k <= |entries| && first + |entries| <= |was|
    requires forall j :: 0 <= j < k ==> Resolve(m, entries[j]) != 0 && now[first + j] == Resolve(m, entries[j])
    requires k < |entries| ==> Resolve(m, entries[k]) == 0 == now[first + k]
    requires forall j :: 0 <= j < |was| && !(first <= j < first + k) && (k < |entries| ==> j != first + k) ==>
               now[j] == was[j]
    requires status == if k < |entries| then Missing(m.width, entries[k]) else Success
    ensures IsBound(m, was, now, entries, first, status)
  {
    hide Resolve, Written, AllResolve;
    WrittenAt(m, entries, k);
    Assembled(now, was, first, Written(m, entries));
  }

  lemma Assembled(now: seq<Cell>, was: seq<Cell>, first: nat, w: seq<Cell>)
    requires |now| == |was| && first + |w| <= |was|
    requires forall j :: 0 <= j < |was| && !(first <= j < first + |w|) ==> now[j] == was[j]
    requires forall j :: 0 <= j < |w| ==> now[first + j] == w[j]
    ensures now == was[..first] + w + was[first + |w|..]
  {
    assert forall j :: first <= j < first + |w| ==> now[j] == w[j - first];
  }

  /** What is written when the first `k` entries resolve and the next does not. */
  lemma {:induction false} WrittenAt(m: Exporter, entries: seq<Cell>, k: nat)
    requires WellFormed(m.exports) && k <= |entries|
    requires forall j :: 0 <= j < k ==> Resolve(m, entries[j]) != 0
    requires k < |entries| ==> Resolve(m, entries[k]) == 0
    ensures var w := Written(m, entries);
            && |w| == (if k < |entries| then k + 1 else k)
            && (AllResolve(m, entries) <==> k == |entries|)
            && forall j :: 0 <= j < |w| ==> w[j] == Resolve(m, entries[j])
  {
    hide Resolve;
    if k > 0 {
      WrittenAt(m, entries[1..], k - 1);
    }
  }

  /** Binding in place gives the addresses that binding beside a lookup table gives. */
  method BindBothWays(m: Exporter, alone: array<Cell>, pair: array<Cell>, at: nat, look: nat, first: nat, ghost n: nat)
    returns (inPlace: Status, beside: Status)
    requires WellFormed(m.exports) && alone != pair
    requires IsTable(alone[..], at, n) && IsTable(pair[..], look, n)
    requires alone[at..at + n] == pair[look..look + n]
    requires look + n < first && first + n <= pair.Length
    modifies alone, pair
    ensures inPlace == beside
    ensures inPlace == Success ==> alone[at..at + n] == pair[first..first + n]
    ensures pair[look..look + n] == old(pair[look..look + n])
  {
    hide Resolve, IsBound, Written, AllResolve, IsTable;
    ghost var wasAlone, wasPair := alone[..], pair[..];
    TableFits(wasAlone, at, n);
    TableFits(wasPair, look, n);
    ghost var entries := alone[at..at + n];
    inPlace := BindThunks(m, alone, at, at, n);
    beside := BindThunks(m, pair, look, first, n);
    SameOutcome(m, wasAlone, alone[..], at, inPlace, wasPair, pair[..], first, beside, entries);
    assert forall k :: look <= k < look + n ==> pair[..][k] == wasPair[k];
  }

  lemma TableFits(mem: seq<Cell>, start: nat, n: nat)
    requires IsTable(mem, start, n)
    ensures start + n < |mem|
  {
  }

  /** The same entries come to the same addresses wherever they are written. */
  lemma SameOutcome(m: Exporter, was: seq<Cell>, now: seq<Cell>, at: nat, status: Status,
                    was': seq<Cell>, now': seq<Cell>, at': nat, status': Status, entries: seq<Cell>)
    requires WellFormed(m.exports) && at + |entries| <= |was| && at' + |entries| <= |was'|
    requires IsBound(m, was, now, entries, at, status) && IsBound(m, was', now', entries, at', status')
    ensures status == status' && |now| == |was| && |now'| == |was'|
    ensures status == Success ==> now[at..at + |entries|] == now'[at'..at' + |entries|]
    ensures forall k :: 0 <= k < at' ==> now'[k] == was'[k]
  {
    hide Resolve, Written, AllResolve;
    BoundCells(m, was, now, entries, at, status);
    BoundCells(m, was', now', entries, at', status');
  }

  // ---------------------------------------------------------------- which address an import gets

  /** The highest bit of a pointer. */
  function HighBit(w: Width): Cell {
    if w == 4 then 0x8000_0000 else 0x8000_0000_0000_0000
  }

  /** An import by number has the highest bit set and the number in its lowest 16 bits; any other is the
      offset of a name, which the name table pairs with an index. */
  ghost predicate StandsFor(m: Exporter, entry: Cell, index: nat)
    requires WellFormed(m.exports)
  {
    if entry >= HighBit(m.width) then
      1 <= entry % 0x1_0000 == m.exports.ordinalBase + index
    else
      exists i :: 0 <= i < |m.exports.names| && m.exports.names[i] == m.nameAt(entry) && m.exports.ordinals[i] == index
  }

  /** The tables that a linker writes: names in ascending order, and no more functions than ordinals. */
  predicate Regular(d: Directory) {
    WellFormed(d) && Ascending(d.names) && |d.functions| <= 0xFFFF && d.ordinalBase + |d.functions| < 0x1_0000_0000
  }

  /** The import has a number, or its name is a string that fits the buffer. */
  predicate Readable(m: Exporter, entry: Cell) {
    entry >= HighBit(m.width) || (0 !in m.nameAt(entry) && |m.nameAt(entry)| <= NAME_BUFFER - 2)
  }

  /** There is a function at the index. */
  predicate Filled(d: Directory, index: nat) {
    index < |d.functions| && d.functions[index] != 0
  }

  /** The function table holds the offset of a forwarder string: it lies in the export directory. */
  predicate Forwarded(d: Directory, index: nat)
    requires Filled(d, index)
  {
    d.start <= d.functions[index] < d.start + d.size
  }

  /** What one index of the function table comes to: base plus offset, in the width of a pointer. */
  function AddressAt(m: Exporter, index: nat): Cell {
    if !Filled(m.exports, index) then 0
    else if Forwarded(m.exports, index) then m.forwarded(m.exports.functions[index])
    else (m.base + m.exports.functions[index]) % (2 * HighBit(m.width))
  }

  /** An import gets the address of its index, and none if the tables have no function for it. */
  ghost predicate IsAddress(m: Exporter, entry: Cell, address: Cell)
    requires WellFormed(m.exports)
  {
    && (forall index: nat :: StandsFor(m, entry, index) ==> address == AddressAt(m, index))
    && (address != 0 ==> exists index: nat :: StandsFor(m, entry, index) && Filled(m.exports, index))
  }

  /** A C string ends before its first NUL. */
  lemma {:induction false} CStringEnds(buffer: Name)
    ensures var c := CString(buffer);
            c <= buffer && 0 !in c && (|c| < |buffer| ==> buffer[|c|] == 0)
  {
    if buffer != [] && buffer[0] != 0 {
      CStringEnds(buffer[1..]);
      assert buffer == [buffer[0]] + buffer[1..];
    }
  }

  lemma {:induction false} WithoutNul(name: Name)
    requires 0 !in name
    ensures CString(name) == name
  {
    if name != [] {
      WithoutNul(name[1..]);
      assert name == [name[0]] + name[1..];
    }
  }

  lemma ResolvedByNumber(m: Exporter, entry: Cell)
    requires Regular(m.exports) && entry >= HighBit(m.width)
    ensures IsAddress(m, entry, Resolve(m, entry))
  {
    hide Ascending, NameToOrdinal;
    var d, n := m.exports, entry % 0x1_0000;
    if 1 <= n && d.ordinalBase <= n {
      NumberIsChecked(d, n);
      assert StandsFor(m, entry, n - d.ordinalBase);
    } else {
      assert Resolve(m, entry) == 0;
    }
  }

  lemma NamedAt(m: Exporter, entry: Cell, i: nat)
    requires Regular(m.exports) && entry < HighBit(m.width) && Readable(m, entry)
    requires i < |m.exports.names| && m.exports.names[i] == m.nameAt(entry)
    ensures StandsFor(m, entry, m.exports.ordinals[i])
    ensures ByName(m.exports, m.nameAt(entry)) ==
            if m.exports.ordinals[i] < |m.exports.functions|
            then At(m.exports, m.exports.ordinals[i], ProcedureNotFound)
            else Failed(ProcedureNotFound)
  {
    hide Ascending, NameToOrdinal, CString, At, ByName;
    WithoutNul(m.nameAt(entry));
    ByNameAt(m.exports, m.nameAt(entry), i);
  }

  lemma ResolvedByName(m: Exporter, entry: Cell)
    requires Regular(m.exports) && entry < HighBit(m.width) && Readable(m, entry)
    ensures IsAddress(m, entry, Resolve(m, entry))
  {
    hide Ascending, NameToOrdinal, CString, GetProcedureAddress;
    var d, name := m.exports, m.nameAt(entry);
    WithoutNul(name);
    assert ByName(d, name) == GetProcedureAddress(d, Some(name), 0);
    if name in d.names {
      forall i | 0 <= i < |d.names| && d.names[i] == name
        ensures StandsFor(m, entry, d.ordinals[i]) && Resolve(m, entry) == AddressAt(m, d.ordinals[i])
      {
        NamedAt(m, entry, i);
      }
    } else {
      MissingNameFails(d, name);
    }
  }

  /** What an import resolves to is what the tables of its module say, and nothing else resolves. */
  lemma ResolvedIsExported(m: Exporter, entry: Cell)
    requires Regular(m.exports) && Readable(m, entry)
    ensures IsAddress(m, entry, Resolve(m, entry))
  {
    hide IsAddress, Resolve, Regular;
    if entry >= HighBit(m.width) {
      ResolvedByNumber(m, entry);
    } else {
      ResolvedByName(m, entry);
    }
  }

  // ---------------------------------------------------------------- all tables of an image

  /** An import descriptor, once its module is resolved: the module, where the lookup table and the address
      table lie, and how many entries there are before the terminator. */
  datatype Import = Import(from: Exporter, look: nat, first: nat, n: nat)

  /** What BindThunks demands of one descriptor. */
  predicate Bindable(mem: seq<Cell>, i: Import) {
    && WellFormed(i.from.exports)
    && IsTable(mem, i.look, i.n) && i.first + i.n <= |mem|
    && (i.first <= i.look || i.look + i.n < i.first)
  }

  /** The addresses of one descriptor lie apart from both tables of another. */
  predicate OutOfTheWay(i: Import, j: Import) {
    && (i.first + i.n <= j.look || j.look + j.n < i.first)
    && (i.first + i.n <= j.first || j.first + j.n <= i.first)
  }

  predicate AllApart(imports: seq<Import>) {
    forall i, j :: 0 <= i < |imports| && 0 <= j < |imports| && i != j ==> OutOfTheWay(imports[i], imports[j])
  }

  /** The addresses of a descriptor are those its entries stood for at the start. */
  predicate Done(was: seq<Cell>, now: seq<Cell>, i: Import)
    requires |now| == |was| && Bindable(was, i)
  {
    forall k :: i.first <= k < i.first + i.n ==> now[k] == Resolve(i.from, was[i.look + (k - i.first)])
  }

  predicate Resolves(was: seq<Cell>, i: Import)
    requires Bindable(was, i)
  {
    AllResolve(i.from, TableOf(was, i))
  }

  /** Cells that belong to none of the address tables. */
  predicate Elsewhere(imports: seq<Import>, k: nat) {
    forall j :: 0 <= j < |imports| ==> k < imports[j].first || imports[j].first + imports[j].n <= k
  }

  /** What the loop has done after the first `n` descriptors. */
  predicate BoundUpTo(was: seq<Cell>, now: seq<Cell>, imports: seq<Import>, n: nat)
    requires |now| == |was| && n <= |imports| && forall j :: 0 <= j < |imports| ==> Bindable(was, imports[j])
  {
    && (forall j :: 0 <= j < n ==> Done(was, now, imports[j]))
    && (forall k :: 0 <= k < |was| && Elsewhere(imports[..n], k) ==> now[k] == was[k])
  }

  function TableOf(mem: seq<Cell>, i: Import): seq<Cell>
    requires i.look + i.n <= |mem|
  {
    mem[i.look..i.look + i.n]
  }

  lemma BindableFacts(mem: seq<Cell>, i: Import)
    requires Bindable(mem, i)
    ensures WellFormed(i.from.exports) && IsTable(mem, i.look, i.n) && i.first + i.n <= |mem|
    ensures i.first <= i.look || i.look + i.n < i.first
    ensures i.look + i.n < |mem|
  {
  }

  lemma NothingBound(was: seq<Cell>, imports: seq<Import>)
    requires forall j :: 0 <= j < |imports| ==> Bindable(was, imports[j])
    ensures BoundUpTo(was, was, imports, 0)
  {
  }

  /** The tables of a descriptor that has yet to come are as they were. */
  lemma StillBindable(was: seq<Cell>, now: seq<Cell>, imports: seq<Import>, i: nat)
    requires AllApart(imports) && i < |imports| && |now| == |was|
    requires (forall j :: 0 <= j < |imports| ==> Bindable(was, imports[j])) && BoundUpTo(was, now, imports, i)
    ensures Bindable(now, imports[i])
    ensures imports[i].look + imports[i].n <= |was| && TableOf(now, imports[i]) == TableOf(was, imports[i])
  {
    hide Resolve, Done;
    var d := imports[i];
    forall k | d.look <= k <= d.look + d.n
      ensures now[k] == was[k]
    {
      forall j | 0 <= j < i
        ensures k < imports[..i][j].first || imports[..i][j].first + imports[..i][j].n <= k
      {
        assert OutOfTheWay(imports[j], d);
      }
      assert Elsewhere(imports[..i], k);
    }
  }

  /** IsBound, cell by cell. */
  lemma BoundCells(m: Exporter, now: seq<Cell>, after: seq<Cell>, entries: seq<Cell>, first: nat, status: Status)
    requires WellFormed(m.exports) && IsBound(m, now, after, entries, first, status) && first + |entries| <= |now|
    ensures |after| == |now|
    ensures forall k :: 0 <= k < |now| && !(first <= k < first + |entries|) ==> after[k] == now[k]
    ensures status == Success ==>
              forall k :: first <= k < first + |entries| ==> after[k] == Resolve(m, entries[k - first])
  {
    hide Resolve, Written, AllResolve;
    WrittenIsResolved(m, entries);
    var w := Written(m, entries);
    forall k | first <= k < first + |w|
      ensures after[k] == w[k - first]
    {
    }
  }

  /** What the other cells hold while one descriptor is bound. */
  predicate Kept(now: seq<Cell>, after: seq<Cell>, i: Import) {
    |after| == |now| && forall k :: 0 <= k < |now| && !(i.first <= k < i.first + i.n) ==> after[k] == now[k]
  }

  lemma BoundOne(was: seq<Cell>, now: seq<Cell>, after: seq<Cell>, i: Import, status: Status)
    requires Bindable(was, i) && Bindable(now, i) && |now| == |was| && TableOf(now, i) == TableOf(was, i)
    requires IsBound(i.from, now, after, TableOf(was, i), i.first, status)
    ensures Kept(now, after, i)
    ensures status == Success <==> Resolves(was, i)
    ensures status == Success ==> Done(was, after, i)
  {
    hide Resolve, Written, AllResolve, WellFormed;
    BoundCells(i.from, now, after, TableOf(was, i), i.first, status);
  }

  lemma KeepsDone(was: seq<Cell>, now: seq<Cell>, after: seq<Cell>, i: Import, j: Import)
    requires |now| == |was| && Bindable(was, j) && Done(was, now, j) && Kept(now, after, i) && OutOfTheWay(i, j)
    ensures Done(was, after, j)
  {
    hide Resolve, IsTable;
  }

  /** One more descriptor leaves the addresses of those before it alone. */
  lemma OneMoreBound(was: seq<Cell>, now: seq<Cell>, after: seq<Cell>, imports: seq<Import>, i: nat, status: Status)
    requires AllApart(imports) && i < |imports| && |now| == |was|
    requires (forall j :: 0 <= j < |imports| ==> Bindable(was, imports[j])) && BoundUpTo(was, now, imports, i)
    requires Kept(now, after, imports[i]) && (status == Success ==> Done(was, after, imports[i]))
    ensures |after| == |was|
    ensures forall j :: 0 <= j < i ==> Done(was, after, imports[j])
    ensures forall k :: 0 <= k < |was| && Elsewhere(imports, k) ==> after[k] == was[k]
    ensures status == Success ==> BoundUpTo(was, after, imports, i + 1)
  {
    hide Bindable, Done, Elsewhere, OutOfTheWay;
    forall j | 0 <= j < i
      ensures Done(was, after, imports[j])
    {
      KeepsDone(was, now, after, imports[i], imports[j]);
    }
    forall k | 0 <= k < |was| && Elsewhere(imports, k)
      ensures after[k] == was[k]
    {
      ElsewhereEarlier(imports, i, k);
    }
    var some := imports[..i + 1];
    assert some[..i] == imports[..i] && some[i] == imports[i];
    forall k | 0 <= k < |was| && Elsewhere(some, k)
      ensures after[k] == was[k]
    {
      ElsewhereEarlier(some, i, k);
    }
  }

  lemma ElsewhereEarlier(imports: seq<Import>, i: nat, k: nat)
    requires i < |imports| && Elsewhere(imports, k)
    ensures Elsewhere(imports[..i], k) && (k < imports[i].first || imports[i].first + imports[i].n <= k)
  {
    assert forall j :: 0 <= j < i ==> imports[..i][j] == imports[j];
  }

  /** LdkpBuildImportDescriptors on an image whose imports can all be loaded.  It succeeds exactly if every
      entry of every table resolves, and then every address is the one its entry stood for; it stops at the
      first descriptor with an entry that does not resolve. */
  method BindImports(mem: array<Cell>, imports: seq<Import>) returns (status: Status, ghost n: nat)
    requires AllApart(imports) && forall j :: 0 <= j < |imports| ==> Bindable(mem[..], imports[j])
    modifies mem
    ensures n <= |imports|
    ensures status == Success <==> n == |imports|
    ensures forall j :: 0 <= j < n ==> Resolves(old(mem[..]), imports[j])
    ensures n < |imports| ==> !Resolves(old(mem[..]), imports[n])
    ensures n < |imports| ==> exists k :: FailsAt(old(mem[..]), mem[..], imports[n], k, status)
    ensures forall j :: 0 <= j < n ==> Done(old(mem[..]), mem[..], imports[j])
    ensures forall j :: 0 <= j < n && Regular(imports[j].from.exports) ==> IsLinked(old(mem[..]), mem[..], imports[j])
    ensures forall k :: 0 <= k < mem.Length && Elsewhere(imports, k) ==> mem[k] == old(mem[k])
  {
    hide Resolve, Written, IsBound, Done, Bindable, Elsewhere, OutOfTheWay, IsTable, Resolves, WellFormed, Regular;
    hide IsLinked, FailsAt;
    ghost var was := mem[..];
    n := 0;
    status := Success;
    NothingBound(was, imports);
    for i := 0 to |imports|
      invariant n == i && status == Success && BoundUpTo(was, mem[..], imports, i)
      invariant forall j :: 0 <= j < i ==> Resolves(was, imports[j])
    {
      ghost var now := mem[..];
      StillBindable(was, now, imports, i);
      BindableFacts(now, imports[i]);
      status := BindThunks(imports[i].from, mem, imports[i].look, imports[i].first, imports[i].n);
      BoundOne(was, now, mem[..], imports[i], status);
      OneMoreBound(was, now, mem[..], imports, i, status);
      if status != Success {
        WhereItFails(was, now, mem[..], imports[i], status);
        AllLinked(was, mem[..], imports, n);
        return;
      }
      n := n + 1;
    }
    assert imports[..|imports|] == imports;
    AllLinked(was, mem[..], imports, n);
  }

  /** What the `k`-th entry of a descriptor resolves to. */
  function ResolvedEntry(was: seq<Cell>, i: Import, k: nat): Cell
    requires Bindable(was, i) && k < i.n
  {
    Resolve(i.from, was[i.look + k])
  }

  /** The entry at `k` has no address: the entries before it got theirs, its own is null, and the error says
      whether it was sought by number or by name. */
  ghost predicate FailsAt(was: seq<Cell>, now: seq<Cell>, i: Import, k: nat, status: Status)
    requires Bindable(was, i)
  {
    && |now| == |was| && k < i.n
    && (forall j :: 0 <= j < k ==> now[i.first + j] == ResolvedEntry(was, i, j) != 0)
    && now[i.first + k] == 0 == ResolvedEntry(was, i, k)
    && status == if was[i.look + k] >= HighBit(i.from.width) then OrdinalMissing else ProcedureMissing
  }

  lemma WhereItFails(was: seq<Cell>, now: seq<Cell>, after: seq<Cell>, i: Import, status: Status)
    requires Bindable(was, i) && Bindable(now, i) && |now| == |was| && TableOf(now, i) == TableOf(was, i)
    requires IsBound(i.from, now, after, TableOf(was, i), i.first, status) && status != Success
    ensures exists k :: FailsAt(was, after, i, k, status)
  {
    hide Resolve, Written, AllResolve, IsBound, Bindable;
    BindableFacts(was, i);
    BindableFacts(now, i);
    var k := FirstFailure(i.from, now, after, TableOf(was, i), i.first, status);
    forall j | 0 <= j <= k
      ensures TableOf(was, i)[j] == was[i.look + j] && ResolvedEntry(was, i, j) == Resolve(i.from, TableOf(was, i)[j])
    {
      EntryOfTable(was, i, j);
    }
    assert FailsAt(was, after, i, k, status);
  }

  lemma FirstFailure(m: Exporter, now: seq<Cell>, after: seq<Cell>, entries: seq<Cell>, first: nat, status: Status)
    returns (k: nat)
    requires WellFormed(m.exports) && first + |entries| <= |now|
    requires IsBound(m, now, after, entries, first, status) && status != Success
    ensures |after| == |now| && k < |entries|
    ensures forall j :: 0 <= j < k ==> after[first + j] == Resolve(m, entries[j]) != 0
    ensures after[first + k] == 0 == Resolve(m, entries[k]) && status == Missing(m.width, entries[k])
  {
    hide Resolve, Written, AllResolve;
    var w := Written(m, entries);
    WrittenIsResolved(m, entries);
    k := |w| - 1;
    forall j | 0 <= j <= k
      ensures after[first + j] == w[j]
    {
      WrittenStands(now, after, first, w, j);
    }
  }

  lemma EntryOfTable(was: seq<Cell>, i: Import, j: nat)
    requires Bindable(was, i) && j < i.n
    ensures TableOf(was, i)[j] == was[i.look + j] && ResolvedEntry(was, i, j) == Resolve(i.from, TableOf(was, i)[j])
  {
  }

  lemma WrittenStands(now: seq<Cell>, after: seq<Cell>, first: nat, w: seq<Cell>, j: nat)
    requires first + |w| <= |now| && after == now[..first] + w + now[first + |w|..] && j < |w|
    ensures first + j < |after| && after[first + j] == w[j]
  {
  }

  /** Every thunk of the descriptor holds the address that the tables of the other module give its import. */
  ghost predicate IsLinked(was: seq<Cell>, now: seq<Cell>, i: Import)
    requires Bindable(was, i)
  {
    && |now| == |was|
    && forall k :: 0 <= k < i.n ==> ThunkIsLinked(was, now, i, k)
  }

  ghost predicate ThunkIsLinked(was: seq<Cell>, now: seq<Cell>, i: Import, k: nat)
    requires Bindable(was, i) && |now| == |was| && k < i.n
  {
    Readable(i.from, was[i.look + k]) ==> IsAddress(i.from, was[i.look + k], now[i.first + k])
  }

  lemma DoneIsLinked(was: seq<Cell>, now: seq<Cell>, i: Import)
    requires |now| == |was| && Bindable(was, i) && Done(was, now, i) && Regular(i.from.exports)
    ensures IsLinked(was, now, i)
  {
    hide Regular, Resolve, IsAddress;
    forall k | 0 <= k < i.n
      ensures ThunkIsLinked(was, now, i, k)
    {
      assert now[i.first + k] == Resolve(i.from, was[i.look + (i.first + k - i.first)]);
      if Readable(i.from, was[i.look + k]) {
        ResolvedIsExported(i.from, was[i.look + k]);
      }
    }
  }

  lemma AllLinked(was: seq<Cell>, now: seq<Cell>, imports: seq<Import>, n: nat)
    requires |now| == |was| && n <= |imports| && forall j :: 0 <= j < |imports| ==> Bindable(was, imports[j])
    requires forall j :: 0 <= j < n ==> Done(was, now, imports[j])
    ensures forall j :: 0 <= j < n && Regular(imports[j].from.exports) ==> IsLinked(was, now, imports[j])
  {
    hide Bindable, Done, Regular, IsLinked;
    forall j | 0 <= j < n && Regular(imports[j].from.exports)
      ensures IsLinked(was, now, imports[j])
    {
      DoneIsLinked(was, now, imports[j]);
    }
  }
}
