/** Draining requests out of a byte stream: what RespHandler::on_data does to
    its input buffer read after read, and what Aof::replay does to a file.  The
    commands that come out depend on the stream, not on how it was cut up. */
module Framing {
  import opened ByteStrings
  import opened Resp

  /** What parsing as far as possible yields: the non-empty commands in order,
      the bytes left over, and the protocol error that stopped it, if any. */
  datatype Drained = Drained(commands: seq<Args>, rest: Bytes, error: Option<ProtocolError>)

  /** The empty request ("*0" or a blank line) is skipped, not dispatched. */
  function Command(args: Args): seq<Args> { if args == [] then [] else [args] }

  function Drain(buffer: Bytes): Drained
    decreases |buffer|
  {
    ConsumedWithinInput(buffer);
    match Parse(buffer)
    case Incomplete => Drained([], buffer, None)
    case Error(e) => Drained([], buffer, Some(e))
    case Ok(args, consumed) =>
      var more := Drain(buffer[consumed..]);
      more.(commands := Command(args) + more.commands)
  }

  /** A drain in progress: `done` has come out, `buffer` is still to be drained. */
  predicate Draining(all: Drained, done: seq<Args>, buffer: Bytes)
  {
    var more := Drain(buffer);
    all == more.(commands := done + more.commands)
  }

  lemma {:induction false} StartDraining(buffer: Bytes)
    ensures Draining(Drain(buffer), [], buffer)
  {
    hide Drain;
    assert [] + Drain(buffer).commands == Drain(buffer).commands;
  }

  lemma {:induction false} DrainTurn(all: Drained, done: seq<Args>, buffer: Bytes)
    requires Draining(all, done, buffer)
    ensures Parse(buffer) == Incomplete ==> all == Drained(done, buffer, None)
    ensures Parse(buffer).Error? ==> all == Drained(done, buffer, Some(Parse(buffer).error))
    ensures Parse(buffer).Ok? ==>
              && 0 < Parse(buffer).consumed <= |buffer|
              && Draining(all, done + Command(Parse(buffer).args), buffer[Parse(buffer).consumed..])
    ensures Parse(buffer).Ok? && Parse(buffer).args != [] ==>
              |done| < |all.commands| && all.commands[|done|] == Parse(buffer).args
  {
    hide Parse;
    ConsumedWithinInput(buffer);
    if Parse(buffer).Ok? {
      var args, rest := Parse(buffer).args, Drain(buffer[Parse(buffer).consumed..]).commands;
      assert done + (Command(args) + rest) == (done + Command(args)) + rest;
    }
  }

  /** The commands carried by a sequence of complete requests. */
  function CommandsOf(frames: seq<Bytes>): seq<Args>
  {
    if frames == [] then []
    else
      var first := Parse(frames[0]);
      (if first.Ok? then Command(first.args) else []) + CommandsOf(frames[1..])
  }

  /** How many of the requests lie wholly within the first `n` bytes. */
  function WholeWithin(frames: seq<Bytes>, n: nat): (j: nat)
    ensures j <= |frames|
  {
    if frames == [] || n < |frames[0]| then 0
    else 1 + WholeWithin(frames[1..], n - |frames[0]|)
  }

  /** Bytes that are, and at every cut were, the beginning of a request. */
  ghost predicate Pending(tail: Bytes)
  {
    forall n :: 0 <= n <= |tail| ==> Parse(tail[..n]) == Incomplete
  }

  ghost predicate AllSplittable(frames: seq<Bytes>)
  {
    forall i :: 0 <= i < |frames| ==> Splittable(frames[i])
  }

  lemma {:induction false} DrainStops(buffer: Bytes)
    ensures Drain(buffer).error.None? ==> Parse(Drain(buffer).rest) == Incomplete
    decreases |buffer|
  {
    hide Parse;
    ConsumedWithinInput(buffer);
    if Parse(buffer).Ok? {
      DrainStops(buffer[Parse(buffer).consumed..]);
    }
  }

  /** Every command drained keeps the limits of the protocol. */
  lemma {:induction false} DrainedWithinLimits(buffer: Bytes)
    ensures Transmissible(Drain(buffer).commands)
    decreases |buffer|
  {
    hide Parse;
    hide WithinLimits;
    ConsumedWithinInput(buffer);
    if Parse(buffer).Ok? {
      ParsedWithinLimits(buffer);
      DrainedWithinLimits(buffer[Parse(buffer).consumed..]);
    }
  }

  /** One whole request in front: it is taken off and draining goes on. */
  lemma {:induction false} DrainFrame(frame: Bytes, rest: Bytes)
    requires Frame(frame)
    ensures var more := Drain(rest);
            Drain(frame + rest) == more.(commands := Command(Parse(frame).args) + more.commands)
  {
    hide Parse;
    var input := frame + rest;
    assert input[..|frame|] == frame == frame[..|frame|];
    OkIsStable(frame, input);
    assert input[|frame|..] == rest;
  }

  /** Draining the first `n` bytes of the stream takes off exactly the requests
      that lie wholly in them and keeps the bytes after those. */
  ghost predicate DrainsWhole(frames: seq<Bytes>, tail: Bytes, n: nat)
    requires n <= |Concat(frames) + tail|
  {
    var j := WholeWithin(frames, n);
    var k := |Concat(frames[..j])|;
    var stream := Concat(frames) + tail;
    && k <= n
    && Drain(stream[..n]) == Drained(CommandsOf(frames[..j]), stream[k..n], None)
    && stream[k..] == Concat(frames[j..]) + tail
  }

  /** A stream of requests cut anywhere: the whole requests before the cut come
      out in order and exactly the rest of the bytes stays. */
  lemma {:induction false} DrainOfCutStream(frames: seq<Bytes>, tail: Bytes, n: nat)
    requires AllSplittable(frames) && Pending(tail)
    requires n <= |Concat(frames) + tail|
    ensures DrainsWhole(frames, tail, n)
    decreases |frames|
  {
    hide Parse;
    var stream := Concat(frames) + tail;
    var cut := stream[..n];
    var j := WholeWithin(frames, n);
    if frames == [] {
      assert cut == tail[..n];
    } else if n < |frames[0]| {
      assert cut == frames[0][..n];
      assert Splittable(frames[0]);
      assert frames[..0] == [] && frames[0..] == frames;
      assert Concat([]) == [];
      assert stream[0..n] == cut;
    } else {
      DrainOfCutStreamStep(frames, tail, n);
    }
  }

  lemma {:induction false} FirstFrame(frames: seq<Bytes>)
    requires AllSplittable(frames) && frames != []
    ensures Frame(frames[0]) && AllSplittable(frames[1..])
    ensures Concat(frames) == frames[0] + Concat(frames[1..])
  {
    hide Parse;
    assert Splittable(frames[0]);
  }

  /** The first `j` requests, first one apart. */
  lemma {:induction false} FirstOf(frames: seq<Bytes>, j: nat)
    requires 0 < j <= |frames| && Frame(frames[0])
    ensures frames[j..] == frames[1..][j - 1..]
    ensures Concat(frames[..j]) == frames[0] + Concat(frames[1..][..j - 1])
    ensures CommandsOf(frames[..j]) == Command(Parse(frames[0]).args) + CommandsOf(frames[1..][..j - 1])
  {
    hide Parse;
    var first := frames[..j];
    assert first[0] == frames[0] && first[1..] == frames[1..][..j - 1];
  }

  lemma {:induction false} DrainOfCutStreamStep(frames: seq<Bytes>, tail: Bytes, n: nat)
    requires AllSplittable(frames) && Pending(tail)
    requires n <= |Concat(frames) + tail|
    requires frames != [] && n >= |frames[0]|
    ensures DrainsWhole(frames, tail, n)
    decreases |frames|, 0
  {
    hide Parse;
    hide Drain;
    hide CommandsOf;
    hide AllSplittable;
    hide Pending;
    hide Concat;
    var f := frames[0];
    var more := frames[1..];
    FirstFrame(frames);
    var stream := Concat(frames) + tail;
    var later := Concat(more) + tail;
    var j := WholeWithin(frames, n);
    assert stream == f + later;
    assert stream[..n] == f + later[..n - |f|];
    DrainFrame(f, later[..n - |f|]);
    DrainOfCutStream(more, tail, n - |f|);
    FirstOf(frames, j);
    var k := |Concat(more[..j - 1])|;
    assert stream[|f| + k..n] == later[k..n - |f|];
    assert stream[|f| + k..] == later[k..];
  }

  // ------------------------------------------------------------------
  // A connection receiving chunk after chunk
  // ------------------------------------------------------------------

  datatype Fed = Fed(commands: seq<Args>, buffer: Bytes, errors: seq<ProtocolError>)

  /** on_data once per chunk: append, drain; a protocol error answers once and
      empties the buffer, and the connection stays. */
  function Feed(buffer: Bytes, chunks: seq<Bytes>): Fed
    decreases |chunks|
  {
    if chunks == [] then Fed([], buffer, [])
    else
      var d := Drain(buffer + chunks[0]);
      var after := if d.error.Some? then [] else d.rest;
      var more := Feed(after, chunks[1..]);
      Fed(d.commands + more.commands, more.buffer,
          (if d.error.Some? then [d.error.value] else []) + more.errors)
  }

  /** What one read makes of the buffer. */
  function AfterRead(d: Drained): Bytes { if d.error.Some? then [] else d.rest }

  function ErrorOf(d: Drained): seq<ProtocolError> { if d.error.Some? then [d.error.value] else [] }

  /** Feeding in progress: `commands` and `errors` have come out, `chunks` are to come. */
  predicate Feeding(all: Fed, commands: seq<Args>, errors: seq<ProtocolError>, buffer: Bytes, chunks: seq<Bytes>)
  {
    var more := Feed(buffer, chunks);
    all == Fed(commands + more.commands, more.buffer, errors + more.errors)
  }

  lemma {:induction false} StartFeeding(buffer: Bytes, chunks: seq<Bytes>)
    ensures Feeding(Feed(buffer, chunks), [], [], buffer, chunks)
  {
    hide Feed;
    var all := Feed(buffer, chunks);
    assert [] + all.commands == all.commands && [] + all.errors == all.errors;
  }

  lemma {:induction false} FeedTurn(
    all: Fed, commands: seq<Args>, errors: seq<ProtocolError>, buffer: Bytes, chunks: seq<Bytes>)
    requires Feeding(all, commands, errors, buffer, chunks)
    ensures chunks == [] ==> all == Fed(commands, buffer, errors)
    ensures chunks != [] ==>
              var d := Drain(buffer + chunks[0]);
              && commands + d.commands <= all.commands
              && Feeding(all, commands + d.commands, errors + ErrorOf(d), AfterRead(d), chunks[1..])
  {
    hide Drain;
    if chunks == [] {
      assert commands + [] == commands && errors + [] == errors;
    } else {
      var d := Drain(buffer + chunks[0]);
      var more := Feed(AfterRead(d), chunks[1..]);
      assert commands + (d.commands + more.commands) == (commands + d.commands) + more.commands;
      assert errors + (ErrorOf(d) + more.errors) == (errors + ErrorOf(d)) + more.errors;
    }
  }

  /** Whole requests before something that is none: they all come out, and then the
      error. */
  lemma {:induction false} DrainToError(frames: seq<Bytes>, bad: Bytes)
    requires (forall i :: 0 <= i < |frames| ==> Frame(frames[i])) && Parse(bad).Error?
    ensures Drain(Concat(frames) + bad) == Drained(CommandsOf(frames), bad, Some(Parse(bad).error))
    decreases |frames|
  {
    hide Parse;
    hide Frame;
    if frames == [] {
      assert Concat(frames) + bad == bad;
    } else {
      DrainToError(frames[1..], bad);
      DrainFrame(frames[0], Concat(frames[1..]) + bad);
      FrameParses(frames[0]);
      assert Concat(frames) + bad == frames[0] + (Concat(frames[1..]) + bad);
    }
  }

  lemma {:induction false} FrameParses(frame: Bytes)
    requires Frame(frame)
    ensures Parse(frame).Ok?
  {}

  /** The rest of the read that held an error is gone, and the next read starts afresh. */
  lemma {:induction false} ErrorEndsTheRead(frames: seq<Bytes>, bad: Bytes, chunks: seq<Bytes>)
    requires (forall i :: 0 <= i < |frames| ==> Frame(frames[i])) && Parse(bad).Error?
    ensures var more := Feed([], chunks);
            Feed([], [Concat(frames) + bad] + chunks) ==
            Fed(CommandsOf(frames) + more.commands, more.buffer, [Parse(bad).error] + more.errors)
  {
    hide Parse;
    hide Frame;
    hide Drain;
    DrainToError(frames, bad);
    var all := [Concat(frames) + bad] + chunks;
    assert all[1..] == chunks && [] + all[0] == Concat(frames) + bad;
  }

  lemma {:induction false} CommandsOfSplit(a: seq<Bytes>, b: seq<Bytes>)
    ensures CommandsOf(a + b) == CommandsOf(a) + CommandsOf(b)
  {
    hide Parse;
    if a == [] {
      assert a + b == b;
    } else {
      assert (a + b)[1..] == a[1..] + b;
      CommandsOfSplit(a[1..], b);
    }
  }

  lemma {:induction false} FeedAnyChunks(frames: seq<Bytes>, tail: Bytes, buffer: Bytes, chunks: seq<Bytes>)
    requires AllSplittable(frames) && Pending(tail)
    requires buffer + Concat(chunks) == Concat(frames) + tail
    requires Parse(buffer) == Incomplete
    ensures Feed(buffer, chunks) == Fed(CommandsOf(frames), tail, [])
    decreases |chunks|
  {
    hide Parse;
    hide Drain;
    hide WholeWithin;
    var stream := Concat(frames) + tail;
    if chunks == [] {
      NothingWhole(frames, tail, buffer);
    } else {
      var n := |buffer| + |chunks[0]|;
      var j := WholeWithin(frames, n);
      var cut := buffer + chunks[0];
      assert stream == cut + Concat(chunks[1..]);
      assert stream[..n] == cut;
      DrainOfCutStream(frames, tail, n);
      DrainStops(cut);
      var k := |Concat(frames[..j])|;
      var rest := stream[k..n];
      assert rest + Concat(chunks[1..]) == stream[k..];
      FeedAnyChunks(frames[j..], tail, rest, chunks[1..]);
      assert frames == frames[..j] + frames[j..];
      CommandsOfSplit(frames[..j], frames[j..]);
    }
  }

  lemma {:induction false} NothingWhole(frames: seq<Bytes>, tail: Bytes, buffer: Bytes)
    requires AllSplittable(frames)
    requires buffer == Concat(frames) + tail && Parse(buffer) == Incomplete
    ensures frames == [] && buffer == tail
  {
    hide Parse;
    if frames != [] {
      var f := frames[0];
      assert Splittable(f);
      assert buffer == f + (Concat(frames[1..]) + tail);
      assert buffer[..|f|] == f == f[..|f|];
      OkIsStable(f, buffer);
    }
  }

  /** Every way of splitting a stream of requests plus an unfinished tail into
      reads dispatches the same commands in order and leaves exactly the tail. */
  lemma {:induction false} ChunkingIsInvisible(frames: seq<Bytes>, tail: Bytes, chunks: seq<Bytes>)
    requires AllSplittable(frames) && Pending(tail)
    requires Concat(chunks) == Concat(frames) + tail
    ensures Feed([], chunks) == Fed(CommandsOf(frames), tail, [])
  {
    assert [] + Concat(chunks) == Concat(chunks);
    FeedAnyChunks(frames, tail, [], chunks);
  }

  /** For a single request the guards decide: it comes through every splitting
      exactly when its lines stay within them. */
  lemma {:induction false} ChunkingExactly(frame: Bytes)
    requires Frame(frame)
    ensures LinesWithinGuards(frame) <==>
            forall chunks | Concat(chunks) == frame ::
              Feed([], chunks) == Fed(Command(Parse(frame).args), [], [])
  {
    hide Parse;
    SplittableExactly(frame);
    ConcatOne(frame);
    if LinesWithinGuards(frame) {
      forall chunks | Concat(chunks) == frame
        ensures Feed([], chunks) == Fed(Command(Parse(frame).args), [], [])
      {
        assert Concat([frame]) + [] == frame;
        PendingNothing();
        ChunkingIsInvisible([frame], [], chunks);
        assert CommandsOf([frame]) == Command(Parse(frame).args) + CommandsOf([]);
      }
    } else {
      var n := FrameTrips(frame);
      var chunks := [frame[..n], frame[n..]];
      assert Concat(chunks) == frame[..n] + Concat([frame[n..]]);
      ConcatOne(frame[n..]);
      assert Concat(chunks) == frame;
      assert [] + chunks[0] == frame[..n];
      assert Drain(frame[..n]).error.Some?;
      assert Feed([], chunks).errors != [];
    }
  }

  lemma {:induction false} PendingNothing()
    ensures Pending([])
  {
    assert Parse([]) == Incomplete;
  }

  // ------------------------------------------------------------------
  // Streams of encoded commands
  // ------------------------------------------------------------------

  ghost predicate Transmissible(commands: seq<Args>)
  {
    forall i :: 0 <= i < |commands| ==> WithinLimits(commands[i]) && commands[i] != []
  }

  function EncodeEach(commands: seq<Args>): (frames: seq<Bytes>)
    ensures |frames| == |commands|
    ensures forall i :: 0 <= i < |commands| ==> frames[i] == Encode(commands[i])
  {
    seq(|commands|, i requires 0 <= i < |commands| => Encode(commands[i]))
  }

  /** The bytes of a log or a replication stream. */
  function EncodeAll(commands: seq<Args>): Bytes { Concat(EncodeEach(commands)) }

  lemma {:induction false} EncodeAllSplit(a: seq<Args>, b: seq<Args>)
    ensures EncodeAll(a + b) == EncodeAll(a) + EncodeAll(b)
  {
    assert EncodeEach(a + b) == EncodeEach(a) + EncodeEach(b);
    ConcatSplit(EncodeEach(a), EncodeEach(b));
  }

  lemma {:induction false} EncodeAllOne(args: Args)
    ensures EncodeAll([args]) == Encode(args)
  {
    assert EncodeEach([args]) == [Encode(args)];
    ConcatOne(Encode(args));
  }

  lemma {:induction false} EncodedFrames(commands: seq<Args>)
    requires Transmissible(commands)
    ensures AllSplittable(EncodeEach(commands))
    ensures CommandsOf(EncodeEach(commands)) == commands
  {
    hide Parse;
    hide Encode;
    hide Splittable;
    forall i | 0 <= i < |commands| ensures Splittable(EncodeEach(commands)[i]) {
      EncodedIsSplittable(commands[i]);
    }
    if commands != [] {
      assert EncodeEach(commands)[1..] == EncodeEach(commands[1..]);
      EncodedFrames(commands[1..]);
      EncodedIsSplittable(commands[0]);
      assert commands == [commands[0]] + commands[1..];
    }
  }

  lemma {:induction false} PendingEncoded(args: Args, n: nat)
    requires WithinLimits(args) && n < |Encode(args)|
    ensures Pending(Encode(args)[..n])
  {
    hide Parse;
    EncodedIsSplittable(args);
    forall m | 0 <= m <= n ensures Parse(Encode(args)[..n][..m]) == Incomplete {
      assert Encode(args)[..n][..m] == Encode(args)[..m];
    }
  }

  /** The number of commands whose encodings lie wholly in the first `n` bytes. */
  function CommandsWithin(commands: seq<Args>, n: nat): (j: nat)
    ensures j <= |commands|
  {
    WholeWithin(EncodeEach(commands), n)
  }

  lemma {:induction false} WholeWithinIsLongest(frames: seq<Bytes>, n: nat)
    ensures var j := WholeWithin(frames, n);
            && |Concat(frames[..j])| <= n
            && (j < |frames| ==> n < |Concat(frames[..j + 1])|)
  {
    if frames != [] && n >= |frames[0]| {
      var j := WholeWithin(frames, n);
      WholeWithinIsLongest(frames[1..], n - |frames[0]|);
      assert frames[..j][1..] == frames[1..][..j - 1];
      if j < |frames| {
        assert frames[..j + 1][1..] == frames[1..][..j];
      }
    } else if frames != [] {
      assert frames[..1] == [frames[0]];
      ConcatOne(frames[0]);
    }
  }

  lemma {:induction false} CommandsWithinIsLongest(commands: seq<Args>, n: nat)
    ensures var j := CommandsWithin(commands, n);
            && |EncodeAll(commands[..j])| <= n
            && (j < |commands| ==> n < |EncodeAll(commands[..j + 1])|)
  {
    var frames := EncodeEach(commands);
    var j := CommandsWithin(commands, n);
    WholeWithinIsLongest(frames, n);
    assert EncodeEach(commands[..j]) == frames[..j];
    if j < |commands| {
      assert EncodeEach(commands[..j + 1]) == frames[..j + 1];
    }
  }

  /** Log bytes cut anywhere: the complete commands come out, the torn bytes
      remain, and no error is ever reported. */
  lemma {:induction false} DrainOfCutLog(commands: seq<Args>, n: nat)
    requires Transmissible(commands) && n <= |EncodeAll(commands)|
    ensures var j := CommandsWithin(commands, n);
            && |EncodeAll(commands[..j])| <= n
            && Drain(EncodeAll(commands)[..n]) ==
               Drained(commands[..j], EncodeAll(commands)[|EncodeAll(commands[..j])|..n], None)
  {
    hide Parse;
    hide Drain;
    hide WholeWithin;
    var frames := EncodeEach(commands);
    var j := CommandsWithin(commands, n);
    EncodedFrames(commands);
    PendingNothing();
    assert Concat(frames) + [] == Concat(frames);
    DrainOfCutStream(frames, [], n);
    assert EncodeEach(commands[..j]) == frames[..j];
    EncodedFrames(commands[..j]);
  }

  /** A client that pipelines encoded commands, however its bytes arrive. */
  lemma {:induction false} ChunkedCommands(commands: seq<Args>, last: Args, n: nat, chunks: seq<Bytes>)
    requires Transmissible(commands) && WithinLimits(last) && n < |Encode(last)|
    requires Concat(chunks) == EncodeAll(commands) + Encode(last)[..n]
    ensures Feed([], chunks) == Fed(commands, Encode(last)[..n], [])
  {
    EncodedFrames(commands);
    PendingEncoded(last, n);
    ChunkingIsInvisible(EncodeEach(commands), Encode(last)[..n], chunks);
  }
}
