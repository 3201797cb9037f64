/** A counted string in a buffer that starts out static and grows onto the heap.  Sizes are in 16-bit
    units, with the sources outside the buffer. */
module StringBuffer {
  import opened Wrappers

  datatype Status = Success | InvalidParameter | NoMemory | NameTooLong

  /** MAX_UNICODE_STRING_MAXLENGTH, 0xFFFE bytes. */
  const MAX_UNITS: nat := 0x7FFF

  /** RTL_ENSURE_BUFFER_SIZE_NO_COPY, the only flag there is. */
  const NO_COPY: nat := 1

  /** The sources, one after the other. */
  function Concat(sources: seq<seq<u16>>): seq<u16> {
    if sources == [] then [] else Concat(sources[..|sources| - 1]) + sources[|sources| - 1]
  }

  function Total(sources: seq<seq<u16>>): nat {
    |Concat(sources)|
  }

  lemma {:induction false} ConcatGrows(sources: seq<seq<u16>>, i: nat)
    requires i <= |sources|
    ensures Concat(sources[..i]) <= Concat(sources)
  {
    if i < |sources| {
      assert sources[..|sources| - 1][..i] == sources[..i];
      ConcatGrows(sources[..|sources| - 1], i);
    } else {
      assert sources[..i] == sources;
    }
  }

  lemma ConcatNext(sources: seq<seq<u16>>, i: nat)
    requires i < |sources|
    ensures Concat(sources[..i + 1]) == Concat(sources[..i]) + sources[i]
  {
    assert sources[..i + 1][..i] == sources[..i];
  }

  lemma {:induction false} ConcatJoins(a: seq<seq<u16>>, b: seq<seq<u16>>)
    ensures Concat(a + b) == Concat(a) + Concat(b)
  {
    if b == [] {
      assert a + b == a;
    } else {
      assert (a + b)[..|a + b| - 1] == a + b[..|b| - 1];
      ConcatJoins(a, b[..|b| - 1]);
    }
  }

  class StringBuffer {
    /** RTL_BUFFER */
    var buffer: array<u16>
    const fixed: array<u16>
    var size: nat
    /** UNICODE_STRING over the same memory */
    var length: nat
    var maximum: nat
    /** What was given back to the heap. */
    ghost var freed: set<array<u16>>

    ghost predicate Valid()
      reads this
    {
      && length <= size <= buffer.Length
      && buffer !in freed && fixed !in freed
    }

    ghost function Text(): seq<u16>
      requires Valid()
      reads this, buffer
    {
      buffer[..length]
    }

    constructor (fixed: array<u16>)
      ensures Valid() && this.fixed == fixed == buffer && size == fixed.Length && Text() == [] && freed == {}
    {
      this.fixed, buffer, size := fixed, fixed, fixed.Length;
      length, maximum, freed := 0, 0, {};
    }

    /** Whether `wanted` fits without a new allocation. */
    predicate Fits(wanted: nat)
      reads this
    {
      wanted <= size || (buffer == fixed && wanted <= fixed.Length)
    }

    /** RtlpEnsureBufferSize */
    method EnsureBufferSize(flags: nat, wanted: nat, available: bool) returns (status: Status)
      requires Valid()
      modifies this`buffer, this`size, this`freed
      ensures Valid()
      ensures status == if flags > NO_COPY then InvalidParameter
                        else if old(Fits(wanted)) || available then Success else NoMemory
      ensures status != Success ==> unchanged(this)
      ensures status == Success ==> size == if wanted <= old(size) then old(size) else wanted
      ensures buffer == old(buffer) <==> status != Success || old(Fits(wanted))
      ensures buffer != old(buffer) ==>
                fresh(buffer) && (flags != NO_COPY ==> buffer[..old(size)] == old(buffer[..size]))
      ensures flags != NO_COPY ==> Text() == old(Text())
      ensures freed == old(freed) + if buffer != old(buffer) && old(buffer) != fixed then {old(buffer)} else {}
    {
      if flags > NO_COPY {
        return InvalidParameter;
      }
      if wanted <= size {
        return Success;
      }
      if buffer == fixed && wanted <= fixed.Length {
        size := wanted;
        return Success;
      }
      if !available {
        return NoMemory;
      }
      var temp := new u16[wanted];
      if flags != NO_COPY {
        forall i | 0 <= i < size {
          temp[i] := buffer[i];
        }
        assert temp[..size] == buffer[..size];
        assert temp[..length] == temp[..size][..length] == buffer[..length];
      }
      if buffer != fixed {
        freed := freed + {buffer};
      }
      buffer := temp;
      size := wanted;
      return Success;
    }

    /** RtlMultiAppendUnicodeStringBuffer: all of the sources, or nothing. */
    method MultiAppend(sources: seq<seq<u16>>, available: bool) returns (status: Status)
      requires Valid()
      modifies this, buffer
      ensures Valid()
      ensures var wanted := old(length) + Total(sources) + 1;
              status == if wanted > MAX_UNITS then NameTooLong
                        else if old(Fits(wanted)) || available then Success else NoMemory
      ensures status != Success ==> unchanged(this) && buffer[..] == old(buffer[..])
      ensures status == Success ==>
                && Text() == old(Text()) + Concat(sources)
                && length < size && buffer[length] == 0
                && maximum == length + 1
                && size == if length + 1 <= old(size) then old(size) else length + 1
      ensures buffer == old(buffer) || fresh(buffer)
      ensures freed == old(freed) + if buffer != old(buffer) && old(buffer) != fixed then {old(buffer)} else {}
    {
      hide Concat;
      var wanted := length;
      NoneYet(sources);
      for i := 0 to |sources|
        invariant wanted == length + Total(sources[..i]) && (i > 0 ==> wanted <= MAX_UNITS)
        modifies {}
      {
        ConcatNext(sources, i);
        ConcatGrows(sources, i + 1);
        wanted := wanted + |sources[i]|;
        if wanted > MAX_UNITS {
          return NameTooLong;
        }
      }
      wanted := wanted + 1;
      if wanted > MAX_UNITS {
        return NameTooLong;
      }
      status := EnsureBufferSize(0, wanted, available);
      if status == Success {
        Fill(sources, wanted);
      }
    }

    /** The second half: the sources are moved behind the old text, and a NUL behind them. */
    method Fill(sources: seq<seq<u16>>, wanted: nat)
      requires Valid() && wanted == length + Total(sources) + 1 <= size
      modifies this`length, this`maximum, buffer
      ensures Valid()
      ensures Text() == old(Text()) + Concat(sources)
      ensures length < size && buffer[length] == 0 && maximum == length + 1
    {
      hide Concat;
      ghost var text := Text();
      maximum := wanted;
      var at := length;
      length := wanted - 1;
      NoneYet(sources);
      for i := 0 to |sources|
        invariant at == |text| + Total(sources[..i]) <= length
        invariant buffer[..at] == text + Concat(sources[..i])
        modifies buffer
      {
        ConcatNext(sources, i);
        ConcatGrows(sources, i + 1);
        forall j | 0 <= j < |sources[i]| {
          buffer[at + j] := sources[i][j];
        }
        assert buffer[..at + |sources[i]|] == (text + Concat(sources[..i])) + sources[i];
        at := at + |sources[i]|;
      }
      buffer[at] := 0;
      assert buffer[..at] == text + Concat(sources);
    }
  }

  lemma NoneYet(sources: seq<seq<u16>>)
    ensures Concat(sources[..0]) == [] && sources[..|sources|] == sources
  {
  }

  /** Appending in two calls is appending in one: where both ways succeed, the strings are the same.  With
      memory for every allocation, one call succeeds exactly when two do. */
  method AppendInTwo(a: StringBuffer, b: StringBuffer, first: seq<seq<u16>>, second: seq<seq<u16>>,
                     availableFirst: bool, availableSecond: bool, availableOnce: bool)
    returns (status: Status, once: Status)
    requires a.Valid() && b.Valid() && a != b && a.Text() == b.Text()
    requires a.buffer != b.buffer
    modifies a, b, a.buffer, b.buffer
    ensures a.Valid() && b.Valid()
    ensures status == Success == once ==> a.Text() == b.Text()
    ensures availableFirst && availableSecond && availableOnce ==> (status == Success <==> once == Success)
    ensures status == NameTooLong ==> once == NameTooLong
  {
    hide Concat;
    status := a.MultiAppend(first, availableFirst);
    once := b.MultiAppend(first + second, availableOnce);
    ConcatJoins(first, second);
    if status == Success {
      status := a.MultiAppend(second, availableSecond);
    }
  }
}
