/** CopyFile2, once both files are open: the source is copied in chunks, and a progress routine is told of
    every step and may stop the copy or ask not to be called again. */
module CopyFile {
  import opened Wrappers

  const BUFFER_SIZE: nat := 0x1_0000

  // ---------------------------------------------------------------- what is reported

  datatype Event =
    | StreamStarted(size: nat)
    | Poll
    | ChunkStarted(number: nat, size: nat)
    | ChunkFinished(number: nat, size: nat, transferred: nat)
    | StreamFinished(transferred: nat)

  datatype Action = Continue | Quiet | Pause | Cancel | Stop

  datatype Error = Aborted | Paused | ReadFailed | WriteFailed | WriteFault | OutOfMemory

  datatype Result = Ok | Failed(error: Error)

  function Sum(sizes: seq<nat>): nat {
    if sizes == [] then 0 else Sum(sizes[..|sizes| - 1]) + sizes[|sizes| - 1]
  }

  /** The events of a copy in chunks of these sizes, up to the end of the last chunk. */
  function Lead(total: nat, sizes: seq<nat>): seq<Event> {
    if sizes == [] then [StreamStarted(total)]
    else
      var n := |sizes|;
      Lead(total, sizes[..n - 1]) + [Poll, ChunkStarted(n, sizes[n - 1]), ChunkFinished(n, sizes[n - 1], Sum(sizes))]
  }

  /** The events of a whole copy. */
  function Story(total: nat, sizes: seq<nat>): seq<Event> {
    Lead(total, sizes) + [Poll, StreamFinished(Sum(sizes))]
  }

  lemma NextChunk(total: nat, sizes: seq<nat>, size: nat)
    ensures Sum(sizes + [size]) == Sum(sizes) + size
    ensures Lead(total, sizes + [size]) ==
            Lead(total, sizes) + [Poll, ChunkStarted(|sizes| + 1, size),
                                  ChunkFinished(|sizes| + 1, size, Sum(sizes) + size)]
  {
    assert (sizes + [size])[..|sizes|] == sizes;
  }

  // ---------------------------------------------------------------- the progress routine

  /** The error an answer ends the copy with. */
  function Verdict(action: Action): Result {
    match action
    case Continue => Ok
    case Quiet => Ok
    case Pause => Failed(Paused)
    case Cancel => Failed(Aborted)
    case Stop => Failed(Aborted)
  }

  class Progress {
    /** Whether there is a routine, and its answer to the nth call. */
    const listening: bool
    const answer: nat -> Action
    /** The calls so far. */
    var events: seq<Event>
    var quiet: bool

    constructor (listening: bool, answer: nat -> Action)
      ensures this.listening == listening && this.answer == answer && events == [] && !quiet
      ensures Heard([]) && Last() == Ok
    {
      this.listening, this.answer := listening, answer;
      events, quiet := [], false;
    }

    /** The routine hears a story from its beginning.  It answers every event but the last with Continue;
        unless it answers that one with Quiet, it hears all there is. */
    ghost predicate Heard(story: seq<Event>)
      reads this
    {
      if !listening then events == [] && !quiet
      else
        && events <= story
        && (forall i :: 0 <= i < |events| - 1 ==> answer(i) == Continue)
        && (quiet <==> events != [] && answer(|events| - 1) == Quiet)
        && (!quiet ==> events == story)
    }

    /** What the last answer says about going on. */
    ghost function Last(): Result
      reads this
    {
      if events == [] then Ok else Verdict(answer(|events| - 1))
    }

    /** The answer to the last call. */
    ghost predicate Answered(action: Action)
      reads this
    {
      events != [] && answer(|events| - 1) == action
    }

    lemma LastMeans()
      ensures Last() == Failed(Paused) <==> Answered(Pause)
      ensures Last() == Failed(Aborted) <==> Answered(Cancel) || Answered(Stop)
      ensures Last().Failed? ==> Last().error == Paused || Last().error == Aborted
    {
    }

    /** LdkpCopyFile2InvokeProgress */
    method Invoke(event: Event, ghost story: seq<Event>) returns (result: Result)
      requires Heard(story) && Last() == Ok
      modifies this
      ensures Heard(story + [event]) && result == Last()
      ensures result != Ok ==> events == story + [event]
      ensures result.Failed? ==> result.error == Aborted || result.error == Paused
    {
      if quiet || !listening {
        return Ok;
      }
      var action := answer(|events|);
      events := events + [event];
      if action == Quiet {
        quiet := true;
      }
      return Verdict(action);
    }
  }

  // ---------------------------------------------------------------- CopyFile2

  /** How the surroundings act, each time they are asked: the cancel flag, a read (short reads included),
      a write (short writes included), and the allocation. */
  datatype World = World(
    cancelled: nat -> bool,
    readFails: nat -> bool,
    read: nat -> nat,
    writeFails: nat -> bool,
    written: nat -> nat,
    memory: bool)

  /** A read of at least one byte, of what is left and fits the buffer; none at the end of the file. */
  function Clamp(asked: nat, left: nat): (r: nat)
    ensures r <= left && r <= BUFFER_SIZE && (r == 0 <==> left == 0)
  {
    if left == 0 then 0
    else if asked == 0 then 1
    else if asked <= left && asked <= BUFFER_SIZE then asked
    else if left <= BUFFER_SIZE then left else BUFFER_SIZE
  }

  class Copy {
    const source: seq<byte>
    /** The size that GetFileSizeEx reported, zero if it failed. */
    const total: nat
    const world: World
    const progress: Progress
    var destination: seq<byte>
    var transferred: nat
    var chunkNumber: nat
    /** What there was to tell, and the sizes of the chunks in it. */
    ghost var story: seq<Event>
    ghost var sizes: seq<nat>

    constructor (source: seq<byte>, total: nat, world: World, progress: Progress)
      requires progress.Heard([]) && progress.Last() == Ok
      ensures this.source == source && this.total == total && this.world == world && this.progress == progress
      ensures destination == [] && transferred == 0 && chunkNumber == 0 && story == [] && sizes == []
    {
      this.source, this.total, this.world, this.progress := source, total, world, progress;
      destination, transferred, chunkNumber := [], 0, 0;
      story, sizes := [], [];
    }

    /** Between two chunks. */
    ghost predicate Between()
      reads this, progress
    {
      && progress.Heard(story) && progress.Last() == Ok
      && story == Lead(total, sizes)
      && destination <= source && |destination| == transferred == Sum(sizes)
      && chunkNumber == |sizes|
      && Undisturbed(chunkNumber) && AllWritten(sizes)
    }

    lemma OneMoreWritten(sizes: seq<nat>, size: nat)
      requires AllWritten(sizes) && !world.writeFails(|sizes| + 1) && world.written(|sizes| + 1) >= size
      ensures AllWritten(sizes + [size])
    {
      var all := sizes + [size];
      forall k | 0 <= k < |all|
        ensures IsWritten(all, k)
      {
        assert if k < |sizes| then all[k] == sizes[k] && IsWritten(sizes, k) else k == |sizes| && all[k] == size;
      }
    }

    /** No write of a chunk failed or fell short. */
    ghost predicate AllWritten(sizes: seq<nat>) {
      forall k :: 0 <= k < |sizes| ==> IsWritten(sizes, k)
    }

    ghost predicate IsWritten(sizes: seq<nat>, k: nat)
      requires k < |sizes|
    {
      !world.writeFails(k + 1) && world.written(k + 1) >= sizes[k]
    }

    /** The first `n` checks and reads found nothing wrong. */
    ghost predicate Undisturbed(n: nat) {
      forall k :: 0 <= k < n ==> !world.cancelled(k) && !world.readFails(k)
    }

    /** Every error has its cause: the answer of the routine, the flag, or the call that failed. */
    ghost predicate Explained(error: Error)
      reads this, progress
    {
      match error
      case Aborted => progress.Answered(Cancel) || progress.Answered(Stop) || world.cancelled(chunkNumber)
      case Paused => progress.Answered(Pause)
      case ReadFailed => world.readFails(chunkNumber)
      case WriteFailed => world.writeFails(chunkNumber)
      case WriteFault => sizes != [] && world.written(chunkNumber) < sizes[|sizes| - 1]
      case OutOfMemory => !world.memory
    }

    /** At the end, whatever the result: the destination is a prefix of the source, and what was told is
        the beginning of a well-ordered story.  A copy that succeeds is complete and told to its end. */
    ghost predicate Done(result: Result)
      reads this, progress
    {
      && destination <= source
      && progress.Heard(story) && story <= Story(total, sizes)
      && (progress.Last() != Ok ==> result == progress.Last() && progress.events == story)
      && (progress.Answered(Pause) ==> result == Failed(Paused))
      && (progress.Answered(Cancel) || progress.Answered(Stop) ==> result == Failed(Aborted))
      && (result == Ok ==>
            && destination == source && Sum(sizes) == |source| && story == Story(total, sizes)
            && world.memory && Undisturbed(chunkNumber + 1) && chunkNumber == |sizes| && AllWritten(sizes))
      && (result.Failed? ==> Explained(result.error))
    }

    /** CopyFile2 from the first event on. */
    method Run() returns (result: Result)
      requires progress.Heard([]) && progress.Last() == Ok && story == [] && sizes == []
      requires destination == [] && transferred == 0 && chunkNumber == 0
      modifies this, progress
      ensures Done(result)
    {
      hide Story, Lead;
      FirstEvent(total);
      result := progress.Invoke(StreamStarted(total), []);
      story := Lead(total, []);
      BeforePoll(total, sizes);
      if result != Ok {
        return;
      }
      if !world.memory {
        return Failed(OutOfMemory);
      }
      result := Loop();
    }

    /** The loop over the chunks, and the event behind it. */
    method Loop() returns (result: Result)
      requires Between() && world.memory
      modifies this, progress
      ensures Done(result)
    {
      hide Story, Lead, Sum, Progress.Heard, Progress.Last, Progress.Answered, AllWritten;
      while true
        invariant Between()
        decreases |source| - |destination|
      {
        BeforePoll(total, sizes);
        if world.cancelled(chunkNumber) {
          progress.LastMeans();
          return Failed(Aborted);
        }
        result := progress.Invoke(Poll, story);
        story := story + [Poll];
        progress.LastMeans();
        if result != Ok {
          return;
        }
        if world.readFails(chunkNumber) {
          return Failed(ReadFailed);
        }
        var bytesRead := Clamp(world.read(chunkNumber), |source| - |destination|);
        if bytesRead == 0 {
          break;
        }
        result := CopyChunk(bytesRead);
        if result != Ok {
          return;
        }
      }
      result := progress.Invoke(StreamFinished(transferred), story);
      story := story + [StreamFinished(transferred)];
      progress.LastMeans();
      LastEvents(total, sizes);
    }

    /** One chunk, from its number to the event at its end. */
    method CopyChunk(bytesRead: nat) returns (result: Result)
      requires 0 < bytesRead <= |source| - |destination|
      requires progress.Heard(story) && progress.Last() == Ok && story == Lead(total, sizes) + [Poll]
      requires destination <= source && |destination| == transferred == Sum(sizes) && chunkNumber == |sizes|
      requires Undisturbed(chunkNumber + 1) && AllWritten(sizes)
      modifies this, progress
      ensures result == Ok ==> Between() && |destination| > old(|destination|)
      ensures result != Ok ==> Done(result)
    {
      hide Story, Lead, Sum, Progress.Heard, Progress.Last, Progress.Answered, AllWritten;
      NextChunk(total, sizes, bytesRead);
      InChunk(total, sizes, bytesRead);
      var buffer := source[|destination|..|destination| + bytesRead];
      chunkNumber := chunkNumber + 1;
      sizes := sizes + [bytesRead];
      result := progress.Invoke(ChunkStarted(chunkNumber, bytesRead), story);
      story := story + [ChunkStarted(chunkNumber, bytesRead)];
      progress.LastMeans();
      if result != Ok {
        return;
      }
      result := TransferChunk(buffer, old(sizes));
    }

    /** The write of a chunk that has been announced, and the event at its end. */
    method TransferChunk(buffer: seq<byte>, ghost before: seq<nat>) returns (result: Result)
      requires progress.Heard(story) && progress.Last() == Ok && sizes == before + [|buffer|] && buffer != []
      requires story == Lead(total, before) + [Poll] + [ChunkStarted(chunkNumber, |buffer|)]
      requires destination + buffer <= source && |destination| == transferred == Sum(before)
      requires chunkNumber == |sizes| && Undisturbed(chunkNumber) && AllWritten(before)
      modifies this, progress
      ensures result == Ok ==> Between() && |destination| > old(|destination|)
      ensures result != Ok ==> Done(result)
    {
      hide Story, Lead, Sum, Progress.Heard, Progress.Last, Progress.Answered, AllWritten;
      NextChunk(total, before, |buffer|);
      InChunk(total, before, |buffer|);
      progress.LastMeans();
      result := WriteChunk(buffer);
      if result != Ok {
        return;
      }
      OneMoreWritten(before, |buffer|);
      transferred := transferred + |buffer|;
      result := progress.Invoke(ChunkFinished(chunkNumber, |buffer|, transferred), story);
      story := story + [ChunkFinished(chunkNumber, |buffer|, transferred)];
      progress.LastMeans();
    }

    /** The write: all of the buffer, or an error. */
    method WriteChunk(buffer: seq<byte>) returns (result: Result)
      requires destination + buffer <= source
      modifies this`destination
      ensures destination <= source
      ensures result == Ok ==> destination == old(destination) + buffer
      ensures result == Ok ==> !world.writeFails(chunkNumber) && world.written(chunkNumber) >= |buffer|
      ensures result.Failed? ==>
                || (result == Failed(WriteFailed) && world.writeFails(chunkNumber))
                || (result == Failed(WriteFault) && world.written(chunkNumber) < |buffer|)
    {
      if world.writeFails(chunkNumber) {
        return Failed(WriteFailed);
      }
      var written := world.written(chunkNumber);
      var bytesWritten := if written < |buffer| then written else |buffer|;
      destination := destination + buffer[..bytesWritten];
      return if bytesWritten != |buffer| then Failed(WriteFault) else Ok;
    }
  }

  lemma FirstEvent(total: nat)
    ensures Lead(total, []) == [StreamStarted(total)] == [] + [StreamStarted(total)]
    ensures Sum([]) == 0
  {
  }

  lemma BeforePoll(total: nat, sizes: seq<nat>)
    ensures Lead(total, sizes) <= Story(total, sizes)
    ensures Lead(total, sizes) + [Poll] <= Story(total, sizes)
  {
  }

  lemma LastEvents(total: nat, sizes: seq<nat>)
    ensures Lead(total, sizes) + [Poll] + [StreamFinished(Sum(sizes))] == Story(total, sizes)
  {
  }

  lemma InChunk(total: nat, sizes: seq<nat>, size: nat)
    ensures var started := ChunkStarted(|sizes| + 1, size);
            var finished := ChunkFinished(|sizes| + 1, size, Sum(sizes) + size);
            && Lead(total, sizes) + [Poll] + [started] <= Story(total, sizes + [size])
            && Lead(total, sizes) + [Poll] + [started] + [finished] == Lead(total, sizes + [size])
            && Lead(total, sizes + [size]) <= Story(total, sizes + [size])
  {
    NextChunk(total, sizes, size);
  }

  // ---------------------------------------------------------------- what a story says

  /** Chunks are numbered from one on without a gap, and each end reports what all chunks up to it took. */
  lemma {:induction false} ChunkReported(total: nat, sizes: seq<nat>, k: nat)
    requires k < |sizes|
    ensures |Lead(total, sizes)| == 3 * |sizes| + 1
    ensures var events := Lead(total, sizes);
            && events[3 * k + 1] == Poll
            && events[3 * k + 2] == ChunkStarted(k + 1, sizes[k])
            && events[3 * k + 3] == ChunkFinished(k + 1, sizes[k], Sum(sizes[..k + 1]))
  {
    LeadLength(total, sizes);
    LeadLength(total, sizes[..|sizes| - 1]);
    if k < |sizes| - 1 {
      ChunkReported(total, sizes[..|sizes| - 1], k);
      assert sizes[..|sizes| - 1][..k + 1] == sizes[..k + 1];
    } else {
      assert sizes[..k + 1] == sizes;
    }
  }

  lemma {:induction false} LeadLength(total: nat, sizes: seq<nat>)
    ensures |Lead(total, sizes)| == 3 * |sizes| + 1
  {
    if sizes != [] {
      LeadLength(total, sizes[..|sizes| - 1]);
    }
  }
}
