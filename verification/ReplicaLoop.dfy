/** The replica's thread as the source writes it, a handshake and a loop, is the
    steps of the state machine taken one after the other. */
module ReplicaLoop {
  import opened ByteStrings
  import opened Keyspace
  import opened Resp
  import opened Framing
  import opened Commands
  import opened Receiving
  import opened Replication
  import CatchingUp
  import Rdb

  // ------------------------------------------------------------------
  // The command stream
  // ------------------------------------------------------------------

  /** Taking commands one step at a time until no whole one is left. */
  function TakeEach(n: Node): Node
    decreases |n.buffer|
  {
    if Parse(n.buffer).Ok? then CatchingUp.CommandShorter(n); TakeEach(AfterCommand(n)) else n
  }

  /** The tasks of commands posted in order from a log position on. */
  function TasksFor(posted: seq<Args>, index: nat): (tasks: seq<Task>)
    ensures |tasks| == |posted|
  {
    seq(|posted|, i requires 0 <= i < |posted| => ApplyOne(posted[i], index + i))
  }

  function AfterTaking(n: Node, t: Taken): Node
  {
    n.(buffer := t.rest, offset := t.offset, acks := n.acks + t.acks,
       queue := n.queue + TasksFor(t.posted, n.taken), taken := n.taken + |t.posted|)
  }

  lemma {:induction false} OneTaken(n: Node)
    requires Parse(n.buffer).Ok?
    ensures var Ok(args, consumed) := Parse(n.buffer);
            var offset := n.offset + consumed;
            && consumed <= |n.buffer|
            && AfterCommand(n) ==
               AfterTaking(n, Taken(n.buffer[consumed..], offset, PostedFor(args), AckFor(args, offset)))
  {
    hide Parse;
    hide VerbOf;
    hide Upper;
    ConsumedWithinInput(n.buffer);
    var Ok(args, consumed) := Parse(n.buffer);
    assert n.queue + [] == n.queue && n.acks + [] == n.acks;
    assert TasksFor([args], n.taken) == [ApplyOne(args, n.taken)];
  }

  lemma {:induction false} TakingComposes(n: Node, a: Taken, b: Taken)
    ensures AfterTaking(AfterTaking(n, a), b)
         == AfterTaking(n, b.(posted := a.posted + b.posted, acks := a.acks + b.acks))
  {
    assert n.acks + a.acks + b.acks == n.acks + (a.acks + b.acks);
    var first, second := TasksFor(a.posted, n.taken), TasksFor(b.posted, n.taken + |a.posted|);
    assert first + second == TasksFor(a.posted + b.posted, n.taken);
    assert n.queue + first + second == n.queue + (first + second);
  }

  /** The loop leaves what the steps leave: rest of the stream, offset, posted tasks
      and acknowledgements. */
  lemma {:induction false} LoopIsSteps(n: Node)
    ensures TakeEach(n) == AfterTaking(n, TakeAll(n.buffer, n.offset))
    decreases |n.buffer|
  {
    hide Parse;
    hide AfterCommand;
    hide AfterTaking;
    hide PostedFor;
    hide AckFor;
    if Parse(n.buffer).Ok? {
      OneTaken(n);
      var Ok(args, consumed) := Parse(n.buffer);
      var offset := n.offset + consumed;
      var one := Taken(n.buffer[consumed..], offset, PostedFor(args), AckFor(args, offset));
      CatchingUp.CommandShorter(n);
      TakenFields(n, one);
      LoopIsSteps(AfterCommand(n));
      TakingComposes(n, one, TakeAll(n.buffer[consumed..], offset));
    } else {
      NothingTaken(n);
    }
  }

  lemma {:induction false} TakenFields(n: Node, t: Taken)
    ensures AfterTaking(n, t).buffer == t.rest && AfterTaking(n, t).offset == t.offset
  {}

  lemma {:induction false} NothingTaken(n: Node)
    ensures AfterTaking(n, Taken(n.buffer, n.offset, [], [])) == n
  {
    assert n.queue + TasksFor([], n.taken) == n.queue && n.acks + [] == n.acks;
  }

  // ------------------------------------------------------------------
  // The handshake
  // ------------------------------------------------------------------

  /** Two lines and a payload, taken in three steps, end where reading the resync in
      one go ends: at the first byte of the stream, with the offset announced and the
      load of the records posted; or disconnected, when the payload is refused. */
  lemma {:induction false} ResyncIsSteps(n: Node, replid: Bytes, offset: nat, payload: Bytes, stream: Bytes)
    requires OneLine(replid) && n.phase.AwaitResync?
    requires n.buffer == ResyncBytes(replid, offset, payload) + stream
    ensures FindCrlf(n.buffer, 0).Some?
    ensures var n1 := AfterLine(n);
            && n1.phase.AwaitSize? && FindCrlf(n1.buffer, 0).Some?
            && var n2 := AfterLine(n1);
            && n2 == n.(phase := AwaitPayload(offset, |payload|), buffer := payload + stream)
            && AfterPayload(n2) ==
               match Rdb.Parse(payload)
               case Parsed(records) =>
                 n.(phase := Streaming, buffer := stream, offset := offset,
                    queue := n.queue + [LoadAll(records, n.snap)], taken := n.snap.base)
               case _ => Detached(n2)
  {
    hide AfterLine;
    hide Rdb.Parse;
    hide ResyncBytes;
    hide FindCrlf;
    FirstLineStep(n, replid, offset, payload, stream);
    var n1 := AfterLine(n);
    SecondLineStep(n1, payload, stream);
    var n2 := AfterLine(n1);
    assert n2.buffer[..|payload|] == payload && n2.buffer[|payload|..] == stream;
  }

  lemma {:induction false} FirstLineStep(n: Node, replid: Bytes, offset: nat, payload: Bytes, stream: Bytes)
    requires OneLine(replid) && n.phase.AwaitResync?
    requires n.buffer == ResyncBytes(replid, offset, payload) + stream
    ensures FindCrlf(n.buffer, 0).Some?
    ensures AfterLine(n) == n.(phase := AwaitSize(offset),
                               buffer := LengthLine(DOLLAR, |payload|) + (payload + stream))
  {
    hide FindCrlf;
    hide ResyncText;
    hide LengthLine;
    hide HasPrefix;
    hide OffsetIn;
    var text := ResyncText(replid, offset);
    var rest := LengthLine(DOLLAR, |payload|) + (payload + stream);
    assert n.buffer == text + CRLF + rest;
    ResyncTextOneLine(replid, offset);
    LineEnds(text, rest);
    OffsetReads(replid, offset);
    assert n.buffer[..|text|] == text && n.buffer[|text| + 2..] == rest;
  }

  lemma {:induction false} SecondLineStep(n: Node, payload: Bytes, stream: Bytes)
    requires n.phase.AwaitSize? && n.buffer == LengthLine(DOLLAR, |payload|) + (payload + stream)
    ensures FindCrlf(n.buffer, 0).Some?
    ensures AfterLine(n) == n.(phase := AwaitPayload(n.phase.at, |payload|), buffer := payload + stream)
  {
    hide FindCrlf;
    hide LeadingNumber;
    hide Digits;
    var text := [DOLLAR] + Digits(|payload|);
    assert n.buffer == text + CRLF + (payload + stream);
    HeaderOneLine(|payload|);
    LineEnds(text, payload + stream);
    NumberReads(|payload|);
    assert n.buffer[..|text|] == text && n.buffer[|text| + 2..] == payload + stream;
    assert text[1..] == Digits(|payload|);
  }
}
