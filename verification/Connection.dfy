/** One connection: byte buffers with a read cursor, and the output side of a
    session, which has at most one write in flight and queues everything else. */
module Connection {
  import opened ByteStrings

  const RECLAIM_THRESHOLD: nat := 8 * 1024

  class Buffer {
    var data: Bytes
    var readPos: nat

    ghost predicate Valid()
      reads this
    {
      readPos <= |data|
    }

    /** What a reader may still take, oldest byte first. */
    function Readable(): Bytes
      requires Valid()
      reads this
    {
      data[readPos..]
    }

    constructor ()
      ensures Valid() && Readable() == []
    {
      data, readPos := [], 0;
    }

    method Clear()
      modifies this
      ensures Valid() && Readable() == [] && readPos == 0
    {
      data, readPos := [], 0;
    }

    /** Compaction: the consumed front goes when it is half of the data or has
        reached the threshold. */
    method Reclaim()
      requires Valid()
      modifies this
      ensures Valid() && Readable() == old(Readable())
      ensures readPos < RECLAIM_THRESHOLD
    {
      if readPos == 0 {
        return;
      }
      if readPos < |data| / 2 && readPos < RECLAIM_THRESHOLD {
        return;
      }
      data := data[readPos..];
      readPos := 0;
    }

    method Append(bytes: Bytes)
      requires Valid()
      modifies this
      ensures Valid() && Readable() == old(Readable()) + bytes
      ensures bytes != [] ==> readPos < RECLAIM_THRESHOLD
    {
      if bytes == [] {
        return;
      }
      Reclaim();
      data := data + bytes;
    }

    /** Asking for more than there is takes all of it. */
    method Consume(n: nat)
      requires Valid()
      modifies this
      ensures Valid()
      ensures Readable() == if n <= |old(Readable())| then old(Readable())[n..] else []
    {
      var size := |data| - readPos;
      readPos := readPos + if n > size then size else n;
      if readPos == |data| {
        Clear();
      }
    }
  }

  class Session {
    const output: Buffer
    const pending: Buffer
    const maxOutput: nat
    var writing: bool
    var closed: bool
    /** The socket has failed a write, and takes nothing any more. */
    var broken: bool

    /** Everything ever queued on this connection, and the bytes of the writes that
        have succeeded. */
    ghost var queued: Bytes
    ghost var written: Bytes
    /** What the socket has taken: more than that only if a write has failed, and then
        part of what that write was handed. */
    ghost var taken: Bytes
    /** The bytes handed to the write that is in flight. */
    ghost var inFlight: Bytes

    constructor (maxOutput: nat)
      ensures Valid() && !closed && !writing && queued == []
      ensures fresh(output) && fresh(pending) && this.maxOutput == maxOutput
    {
      output := new Buffer();
      pending := new Buffer();
      this.maxOutput := maxOutput;
      writing, closed := false, false;
      queued, written, taken, inFlight := [], [], [], [];
      broken := false;
    }

    ghost predicate Wellformed()
      reads this, output, pending
    {
      output != pending && output.Valid() && pending.Valid()
    }

    /** Order and no loss, open or closed: written, then `output`, then `pending` is
        everything queued, and a write in flight covers exactly what `output` holds.
        Between the replies of one read, bytes may wait in `pending` with no write in
        flight; on an open session `output` then holds nothing. */
    ghost predicate Valid()
      reads this, output, pending
    {
      && Wellformed()
      && written + output.Readable() + pending.Readable() == queued
      && (writing ==> inFlight == output.Readable() && inFlight != [])
      && (!writing && !closed ==> output.Readable() == [])
      && (if broken then closed && written <= taken <= written + output.Readable() else taken == written)
    }

    /** Start a write of everything waiting, unless one is in flight.  Afterwards
        nothing waits without a write to wait for. */
    method Flush()
      requires Valid()
      modifies this`writing, this`inFlight, output, pending
      ensures Valid()
      ensures old(writing) ==> writing && unchanged(output) && unchanged(pending)
      ensures !old(writing) ==>
                output.Readable() == old(output.Readable()) + old(pending.Readable())
      ensures !writing ==> output.Readable() == [] && pending.Readable() == []
    {
      if writing {
        return;
      }
      if pending.Readable() != [] {
        output.Append(pending.Readable());
        pending.Clear();
      }
      if output.Readable() == [] {
        return;
      }
      writing := true;
      inFlight := output.Readable();
    }

    /** The handler answers a command of the read in progress: the reply only goes to
        `pending`, and no write is started for it yet. */
    method Reply(bytes: Bytes)
      requires Valid()
      modifies this`queued, pending
      ensures Valid() && queued == old(queued) + bytes
      ensures pending.Readable() == old(pending.Readable()) + bytes
    {
      queued := queued + bytes;
      pending.Append(bytes);
    }

    /** A push on the link, possibly between the replies of a read. */
    method Send(bytes: Bytes)
      requires Valid()
      modifies this`writing, this`closed, this`queued, this`inFlight, output, pending
      ensures Valid()
      ensures queued == old(queued) + if old(closed) then [] else bytes
      ensures old(writing) || old(closed) ==> unchanged(output)
      ensures closed <==> old(closed) || |old(output.Readable())| + |old(pending.Readable())| + |bytes| > maxOutput
      ensures !closed && !writing ==> pending.Readable() == []
    {
      if closed {
        return;
      }
      queued := queued + bytes;
      pending.Append(bytes);
      if |output.Readable()| + |pending.Readable()| > maxOutput {
        closed := true;
        return;
      }
      Flush();
    }

    /** The end of a read, after all its commands have been answered. */
    method FinishRead()
      requires Valid()
      modifies this`writing, this`closed, this`inFlight, output, pending
      ensures Valid()
      ensures closed <==> old(closed) || |old(output.Readable())| + |old(pending.Readable())| > maxOutput
      ensures old(writing) ==> unchanged(output)
      ensures !closed && !writing ==> pending.Readable() == []
    {
      if |output.Readable()| + |pending.Readable()| > maxOutput {
        closed := true;
        return;
      }
      Flush();
    }

    /** Completion of the write in flight.  If it succeeded, all it was handed has been
        taken, and whatever came in the meantime is written next.  If it failed, the
        socket has taken the first `count` bytes of it, none once it was broken. */
    method OnWritten(failed: bool, ghost count: nat)
      requires Valid() && writing
      requires if failed then count <= |inFlight| else count == |inFlight|
      requires broken ==> failed && count == 0
      modifies this`writing, this`closed, this`written, this`taken, this`broken, this`inFlight, output, pending
      ensures Valid()
      ensures closed == (old(closed) || failed)
      ensures taken == old(taken) + old(inFlight)[..count]
      ensures failed ==> !writing && broken && written == old(written)
      ensures !failed ==>
                && written == old(written) + old(inFlight)
                && output.Readable() == old(pending.Readable()) && pending.Readable() == []
                && (writing <==> old(pending.Readable()) != [])
    {
      writing := false;
      taken := taken + inFlight[..count];
      if failed {
        closed, broken := true, true;
        return;
      }
      written := written + inFlight;
      output.Consume(|output.Readable()|);
      Flush();
    }

    method Handle(event: SessionEvent)
      requires Valid()
      modifies this`writing, this`closed, this`queued, this`written, this`taken, this`broken, this`inFlight,
               output, pending
      ensures Valid()
      ensures old(taken) <= taken <= queued
      ensures old(closed) ==> closed
      ensures !closed ==> queued == old(queued) + BytesOf(event)
    {
      match event {
        case Push(bytes) => Send(bytes);
        case Answer(bytes) => Reply(bytes);
        case EndOfRead => FinishRead();
        case Completion(failed, count) =>
          if writing {
            ghost var part := if count <= |inFlight| then count else |inFlight|;
            OnWritten(failed || broken, if broken then 0 else if failed then part else |inFlight|);
          }
      }
    }

    /** Any interleaving of replies, pushes, ends of reads and write completions: the
        session stays in order, what the socket has taken only grows and is the front of
        what was queued, and on a session still open everything sent or answered is
        queued, in that order. */
    method Play(events: seq<SessionEvent>)
      requires Valid()
      modifies this`writing, this`closed, this`queued, this`written, this`taken, this`broken, this`inFlight,
               output, pending
      ensures Valid()
      ensures old(taken) <= taken <= queued
      ensures old(closed) ==> closed
      ensures !closed ==> queued == old(queued) + QueuedBy(events)
    {
      hide QueuedBy;
      var i := 0;
      NothingQueued(events[..0]);
      while i < |events|
        invariant 0 <= i <= |events| && Valid()
        invariant old(taken) <= taken
        invariant old(closed) ==> closed
        invariant !closed ==> queued == old(queued) + QueuedBy(events[..i])
      {
        OneMoreEvent(events, i);
        Handle(events[i]);
        i := i + 1;
      }
      assert events[..|events|] == events;
    }
  }

  /** What can happen on a session; a completion counts while a write is in flight, and
      its count only when it fails. */
  datatype SessionEvent =
    | Push(bytes: Bytes) | Answer(bytes: Bytes) | EndOfRead | Completion(failed: bool, count: nat)

  function QueuedBy(events: seq<SessionEvent>): Bytes
  {
    if events == [] then []
    else
      var last := events[|events| - 1];
      QueuedBy(events[..|events| - 1]) + BytesOf(last)
  }

  function BytesOf(event: SessionEvent): Bytes
  {
    if event.Push? || event.Answer? then event.bytes else []
  }

  lemma {:induction false} NothingQueued(events: seq<SessionEvent>)
    requires events == []
    ensures QueuedBy(events) == []
  {}

  lemma {:induction false} OneMoreEvent(events: seq<SessionEvent>, i: nat)
    requires i < |events|
    ensures QueuedBy(events[..i + 1]) == QueuedBy(events[..i]) + BytesOf(events[i])
  {
    assert events[..i + 1][..i] == events[..i];
  }
}
