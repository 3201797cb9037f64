/** Temporary file names: a path, up to three characters of a prefix, four hexadecimal digits and an
    extension, tried one after the other until a file can be created. */
module TempName {
  import opened Wrappers

  const MAX_PATH: nat := 260
  const BACKSLASH: u16 := 0x5C
  const SLASH: u16 := 0x2F
  /** ".TMP" */
  const EXTENSION: Text := [0x2E, 0x54, 0x4D, 0x50]

  // ---------------------------------------------------------------- hexadecimal

  /** LdkpTempHexDigit */
  function HexDigit(value: nat): u16 {
    var digit := value % 0x10;
    if digit < 10 then 0x30 + digit else 0x41 + (digit - 10)
  }

  /** LdkpTempUniqueToHex */
  function Hex(unique: nat): Text {
    var value := unique % 0x1_0000;
    [HexDigit(value / 0x1000), HexDigit(value / 0x100), HexDigit(value / 0x10), HexDigit(value)]
  }

  function DigitValue(c: u16): int {
    if c < 0x41 then c - 0x30 else c - 0x41 + 10
  }

  function Unhex(text: Text): int
    requires |text| == 4
  {
    0x1000 * DigitValue(text[0]) + 0x100 * DigitValue(text[1]) + 0x10 * DigitValue(text[2]) + DigitValue(text[3])
  }

  /** The digits give back the 16 bits they were made from. */
  lemma HexIsInvertible(unique: nat)
    ensures Unhex(Hex(unique)) == unique % 0x1_0000
  {
    hide HexDigit, DigitValue;
    var value := unique % 0x1_0000;
    DigitIsInvertible(value / 0x1000);
    DigitIsInvertible(value / 0x100);
    DigitIsInvertible(value / 0x10);
    DigitIsInvertible(value);
    FourDigits(value);
  }

  lemma FourDigits(value: nat)
    requires value < 0x1_0000
    ensures value == 0x1000 * (value / 0x1000 % 0x10) + 0x100 * (value / 0x100 % 0x10)
                     + 0x10 * (value / 0x10 % 0x10) + value % 0x10
  {
    assert value / 0x100 == value / 0x10 / 0x10;
    assert value / 0x1000 == value / 0x10 / 0x10 / 0x10;
    assert value / 0x1000 < 0x10;
  }

  lemma DigitIsInvertible(value: nat)
    ensures DigitValue(HexDigit(value)) == value % 0x10
  {
  }

  // ---------------------------------------------------------------- LdkpBuildTempFileNameW

  /** LdkpEnsureTrailingPathSeparator, for a path that fits its buffer; nothing when there is no room. */
  function WithSeparator(path: Text): (r: Text)
    ensures path != [] && r != [] ==> path <= r && |r| <= |path| + 1
  {
    if path == [] then []
    else if path[|path| - 1] == BACKSLASH || path[|path| - 1] == SLASH then path
    else if |path| + 1 >= MAX_PATH then []
    else path + [BACKSLASH]
  }

  /** The part before the digits. */
  function Stem(path: Text, prefix: Text): Text {
    WithSeparator(path) + (if |prefix| > 3 then prefix[..3] else prefix)
  }

  function Name(path: Text, prefix: Text, unique: nat): Text {
    Stem(path, prefix) + Hex(unique) + EXTENSION
  }

  /** Whether a name can be built; which number it gets does not matter. */
  predicate CanBuild(path: Text, prefix: Text) {
    && path != [] && |path| < MAX_PATH && WithSeparator(path) != []
    && |Stem(path, prefix)| + 4 + 4 < MAX_PATH
  }

  /** Every name fits, together with the NUL behind it, and starts with the path and the prefix. */
  lemma NameFits(path: Text, prefix: Text, unique: nat)
    requires CanBuild(path, prefix)
    ensures |Name(path, prefix, unique)| + 1 <= MAX_PATH
    ensures path <= Name(path, prefix, unique)
  {
  }

  predicate EndsInSeparator(path: Text) {
    path != [] && (path[|path| - 1] == 0x5C || path[|path| - 1] == 0x2F)
  }

  /** What a name consists of: the path, a backslash unless it ends in a separator, the first three characters
      of the prefix or all there are, the digits of the number from the highest to the lowest, and ".TMP". */
  lemma NameParts(path: Text, prefix: Text, unique: nat)
    requires CanBuild(path, prefix)
    ensures var name, front, taken := Name(path, prefix, unique), if EndsInSeparator(path) then |path| else |path| + 1,
                                      if |prefix| < 3 then |prefix| else 3;
            && |name| == front + taken + 8
            && name[..|path|] == path && (front > |path| ==> name[|path|] == 0x5C)
            && (forall i :: 0 <= i < taken ==> name[front + i] == prefix[i])
            && name[front + taken] == DIGITS[unique / 0x1000 % 0x10]
            && name[front + taken + 1] == DIGITS[unique / 0x100 % 0x10]
            && name[front + taken + 2] == DIGITS[unique / 0x10 % 0x10]
            && name[front + taken + 3] == DIGITS[unique % 0x10]
            && name[front + taken + 4..] == [0x2E, 0x54, 0x4D, 0x50]
  {
    hide HexDigit, Hex;
    DigitsOf(unique);
    var taken := if |prefix| > 3 then prefix[..3] else prefix;
    Parts(WithSeparator(path), taken, Hex(unique), EXTENSION);
  }

  lemma Parts(a: Text, b: Text, c: Text, e: Text)
    requires |c| == |e| == 4
    ensures var t := a + b + c + e;
            && |t| == |a| + |b| + 8 && t[..|a|] == a && t[|a| + |b| + 4..] == e
            && (forall i :: 0 <= i < |b| ==> t[|a| + i] == b[i])
            && (forall i :: 0 <= i < 4 ==> t[|a| + |b| + i] == c[i])
  {
  }

  /** "0123456789ABCDEF" */
  const DIGITS: seq<u16> :=
    [0x30, 0x31, 0x32, 0x33, 0x34, 0x35, 0x36, 0x37, 0x38, 0x39, 0x41, 0x42, 0x43, 0x44, 0x45, 0x46]

  lemma DigitsOf(unique: nat)
    ensures Hex(unique) == [DIGITS[unique / 0x1000 % 0x10], DIGITS[unique / 0x100 % 0x10],
                            DIGITS[unique / 0x10 % 0x10], DIGITS[unique % 0x10]]
  {
    hide HexDigit;
    var value := unique % 0x1_0000;
    DigitIs(value / 0x1000);
    DigitIs(value / 0x100);
    DigitIs(value / 0x10);
    DigitIs(value);
    SameDigits(unique);
  }

  lemma DigitIs(value: nat)
    ensures HexDigit(value) == DIGITS[value % 0x10]
  {
  }

  lemma SameDigits(unique: nat)
    ensures var value := unique % 0x1_0000;
            && value % 0x10 == unique % 0x10 && value / 0x10 % 0x10 == unique / 0x10 % 0x10
            && value / 0x100 % 0x10 == unique / 0x100 % 0x10 && value / 0x1000 % 0x10 == unique / 0x1000 % 0x10
  {
    var q, value := unique / 0x1_0000, unique % 0x1_0000;
    assert unique == 0x1_0000 * q + value;
    SameDigit(value / 0x10, 0x100 * q);
    SameDigit(value / 0x100, 0x10 * q);
    SameDigit(value / 0x1000, q);
    SameDigit(value, 0x1000 * q);
    Shifted(q, value);
  }

  lemma SameDigit(digit: nat, q: nat)
    ensures (digit + 0x10 * q) % 0x10 == digit % 0x10
  {
  }

  lemma Shifted(q: nat, value: nat)
    ensures (0x1_0000 * q + value) / 0x10 == value / 0x10 + 0x10 * (0x100 * q)
    ensures (0x1_0000 * q + value) / 0x100 == value / 0x100 + 0x10 * (0x10 * q)
    ensures (0x1_0000 * q + value) / 0x1000 == value / 0x1000 + 0x10 * q
  {
  }

  /** A name can be built where it has at most 259 characters, and the path is there and leaves room for a
      separator. */
  lemma CanBuildMeans(path: Text, prefix: Text)
    ensures CanBuild(path, prefix) <==>
            && path != []
            && (if EndsInSeparator(path) then |path| else |path| + 1) < 260
            && (if EndsInSeparator(path) then |path| else |path| + 1) + (if |prefix| < 3 then |prefix| else 3) + 8 < 260
  {
  }

  /** Two names are the same exactly when their numbers agree in 16 bits. */
  lemma NamesAreDistinct(path: Text, prefix: Text, u: nat, v: nat)
    ensures Name(path, prefix, u) == Name(path, prefix, v) <==> u % 0x1_0000 == v % 0x1_0000
  {
    hide Unhex;
    HexIsInvertible(u);
    HexIsInvertible(v);
    var n := |Stem(path, prefix)|;
    assert Name(path, prefix, u)[n..n + 4] == Hex(u);
    assert Name(path, prefix, v)[n..n + 4] == Hex(v);
  }

  /** The four copies into the caller's buffer. */
  method BuildTempFileName(path: Text, prefix: Text, unique: nat, name: array<u16>) returns (ok: bool)
    requires name.Length >= MAX_PATH
    modifies name
    ensures ok == CanBuild(path, prefix)
    ensures !ok ==> name[..] == old(name[..])
    ensures ok ==> var n := Name(path, prefix, unique); |n| < name.Length && name[..|n|] == n && name[|n|] == 0
  {
    hide Hex, WithSeparator;
    if path == [] || |path| >= MAX_PATH {
      return false;
    }
    var full := WithSeparator(path);
    if full == [] {
      return false;
    }
    var prefixLength := 0;
    while prefixLength < |prefix| && prefixLength < 3
      invariant prefixLength <= |prefix| && prefixLength <= 3
    {
      prefixLength := prefixLength + 1;
    }
    if |full| + prefixLength + 4 + 4 >= MAX_PATH {
      return false;
    }
    HexHasFour(unique);
    CopyParts(full, prefix[..prefixLength], Hex(unique), name);
    return true;
  }

  lemma HexHasFour(unique: nat)
    ensures |Hex(unique)| == 4
  {
  }

  method CopyParts(full: Text, prefix: Text, hex: Text, name: array<u16>)
    requires |hex| == 4 && |full| + |prefix| + 4 + 4 < name.Length
    modifies name
    ensures var n := full + prefix + hex + EXTENSION; name[..|n|] == n && name[|n|] == 0
  {
    Copy(name, 0, full);
    Copy(name, |full|, prefix);
    ghost var stem := full + prefix;
    assert name[..|stem|] == stem;
    Copy(name, |full| + |prefix|, hex);
    ghost var numbered := stem + hex;
    assert name[..|numbered|] == numbered;
    Copy(name, |full| + |prefix| + 4, EXTENSION + [0]);
    EndsWithNul(name[..], numbered, EXTENSION);
  }

  lemma EndsWithNul(buffer: Text, front: Text, back: Text)
    requires |front| + |back| < |buffer|
    requires buffer[..|front| + |back| + 1] == front + (back + [0])
    ensures buffer[..|front + back|] == front + back && buffer[|front + back|] == 0
  {
    var whole := buffer[..|front| + |back| + 1];
    assert buffer[|front + back|] == whole[|front + back|];
    assert whole[..|front + back|] == front + back;
  }

  /** RtlCopyMemory */
  method Copy(name: array<u16>, at: nat, text: Text)
    requires at + |text| <= name.Length
    modifies name
    ensures name[..at + |text|] == old(name[..at]) + text
  {
    forall i | 0 <= i < |text| {
      name[at + i] := text[i];
    }
  }

  // ---------------------------------------------------------------- GetTempFileNameW

  datatype Result =
    /** The number the name was built from. */
    | Unique(value: nat)
    /** No name could be built, or a file could not be created for another reason than that it exists. */
    | Failed
    /** ERROR_FILE_EXISTS */
    | FileExists

  const ATTEMPTS: nat := 0x1_0000

  /** The 16 bits the counter shows after `a` increments. */
  function Candidate(counter: nat, a: nat): nat {
    ((counter + a) % 0x1_0000_0000) % 0x1_0000
  }

  /** The increment that makes the counter show `u`. */
  function AttemptFor(counter: nat, u: nat): (a: nat)
    requires u < 0x1_0000
    ensures 1 <= a <= ATTEMPTS
  {
    (u - counter - 1) % 0x1_0000 + 1
  }

  /** So many increments show every 16-bit number exactly once, wherever the counter starts. */
  lemma EveryNumberOnce(counter: nat, u: nat, a: nat)
    requires u < 0x1_0000 && 1 <= a <= ATTEMPTS
    ensures Candidate(counter, a) == u <==> a == AttemptFor(counter, u)
  {
    LowBits(counter + a);
    var x, d := counter + a, u - counter - 1;
    if x % 0x1_0000 == u {
      Remainder(d, -(x / 0x1_0000), a - 1);
    }
    if a == AttemptFor(counter, u) {
      Remainder(x, -(d / 0x1_0000), u);
    }
  }

  lemma Remainder(x: int, quotient: int, rest: int)
    requires x == 0x1_0000 * quotient + rest && 0 <= rest < 0x1_0000
    ensures x % 0x1_0000 == rest
  {
  }

  lemma NextShows(counter: nat, attempt: nat)
    ensures ((counter + attempt) % 0x1_0000_0000 + 1) % 0x1_0000_0000 == (counter + attempt + 1) % 0x1_0000_0000
    ensures Candidate(counter, attempt + 1) == (counter + attempt + 1) % 0x1_0000_0000 % 0x1_0000
  {
  }

  lemma LowBits(x: nat)
    ensures (x % 0x1_0000_0000) % 0x1_0000 == x % 0x1_0000
  {
  }

  class TempFiles {
    /** The names that are taken. */
    var existing: set<Text>
    /** LdkpTempFileNameCounter, as its 32 bits. */
    var counter: nat

    constructor (existing: set<Text>)
      ensures this.existing == existing && counter == 0
    {
      this.existing := existing;
      counter := 0;
    }

    /** GetTempFileNameW without concurrent callers.  `allowed` says which names could be created. */
    method GetTempFileName(path: Text, prefix: Text, unique: nat, allowed: Text -> bool, name: array<u16>)
      returns (result: Result)
      requires counter < 0x1_0000_0000 && name.Length >= MAX_PATH
      modifies this, name
      ensures counter < 0x1_0000_0000
      ensures result == FileExists <==>
                && unique == 0 && CanBuild(path, prefix)
                && forall u :: 0 < u < 0x1_0000 ==> Name(path, prefix, u) in old(existing)
      ensures result.Unique? ==>
                && CanBuild(path, prefix)
                && result.value > 0
                && (var n := Name(path, prefix, result.value);
                    && |n| < name.Length && name[..|n|] == n && name[|n|] == 0
                    && (unique == 0 ==>
                          result.value < 0x1_0000 && n !in old(existing) && allowed(n)
                          && existing == old(existing) + {n}
                          && TriedBefore(path, prefix, old(existing), old(counter), result.value)))
      ensures unique != 0 ==>
                result == (if CanBuild(path, prefix) then Unique(unique) else Failed) && counter == old(counter)
      ensures !result.Unique? || unique != 0 ==> existing == old(existing)
    {
      if unique != 0 {
        var ok := BuildTempFileName(path, prefix, unique, name);
        return if ok then Unique(unique) else Failed;
      }
      result := Search(path, prefix, allowed, name);
    }

    /** The loop over the attempts. */
    method Search(path: Text, prefix: Text, allowed: Text -> bool, name: array<u16>) returns (result: Result)
      requires counter < 0x1_0000_0000 && name.Length >= MAX_PATH
      modifies this, name
      ensures counter < 0x1_0000_0000
      ensures result == FileExists <==>
                CanBuild(path, prefix) && forall u :: 0 < u < 0x1_0000 ==> Name(path, prefix, u) in old(existing)
      ensures result.Unique? ==>
                && CanBuild(path, prefix) && 0 < result.value < 0x1_0000
                && (var n := Name(path, prefix, result.value);
                    && |n| < name.Length && name[..|n|] == n && name[|n|] == 0
                    && n !in old(existing) && allowed(n) && existing == old(existing) + {n})
                && TriedBefore(path, prefix, old(existing), old(counter), result.value)
      ensures !result.Unique? ==> existing == old(existing)
    {
      hide Name, CanBuild, Candidate;
      ghost var built := false;
      for attempt := 0 to ATTEMPTS
        invariant counter == (old(counter) + attempt) % 0x1_0000_0000 && existing == old(existing)
        invariant Exhausted(path, prefix, existing, old(counter), attempt)
        invariant if built then CanBuild(path, prefix)
                  else forall a :: 1 <= a <= attempt ==> Candidate(old(counter), a) == 0
      {
        counter := (counter + 1) % 0x1_0000_0000;
        NextShows(old(counter), attempt);
        var value := counter % 0x1_0000;
        if value == 0 {
          continue;
        }
        var ok := BuildTempFileName(path, prefix, value, name);
        if !ok {
          return Failed;
        }
        built := true;
        var n := Name(path, prefix, value);
        if n !in existing {
          if !allowed(n) {
            return Failed;
          }
          existing := existing + {n};
          EveryNumberOnce(old(counter), value, attempt + 1);
          return Unique(value);
        }
      }
      AllTried(path, prefix, existing, old(counter));
      EveryNumberOnce(old(counter), 1, AttemptFor(old(counter), 1));
      return FileExists;
    }
  }

  /** The first `attempts` numbers are zero or lead to names that are taken. */
  ghost predicate Exhausted(path: Text, prefix: Text, existing: set<Text>, counter: nat, attempts: nat) {
    forall a :: 1 <= a <= attempts ==>
      Candidate(counter, a) == 0 || Name(path, prefix, Candidate(counter, a)) in existing
  }

  /** Every number that comes before `u` is. */
  ghost predicate TriedBefore(path: Text, prefix: Text, existing: set<Text>, counter: nat, u: nat)
    requires u < 0x1_0000
  {
    Exhausted(path, prefix, existing, counter, AttemptFor(counter, u) - 1)
  }

  /** After all attempts every number from 1 on has been tried. */
  lemma AllTried(path: Text, prefix: Text, existing: set<Text>, counter: nat)
    requires Exhausted(path, prefix, existing, counter, ATTEMPTS)
    ensures forall u :: 0 < u < 0x1_0000 ==> Name(path, prefix, u) in existing
  {
    hide Name, Candidate, AttemptFor;
    forall u: nat | 0 < u < 0x1_0000
      ensures Name(path, prefix, u) in existing
    {
      EveryNumberOnce(counter, u, AttemptFor(counter, u));
      assert Candidate(counter, AttemptFor(counter, u)) == u;
    }
  }
}
