/** The replica's side of the wire: reading lines and an exact number of bytes
    off a socket that delivers arbitrary chunks, the full-resync exchange, and
    the command stream that follows it. */
module Receiving {
  import opened ByteStrings
  import opened Keyspace
  import opened Resp
  import opened Framing
  import opened Commands
  import opened CommandLaws
  import Rdb
  import RdbCodec

  // ------------------------------------------------------------------
  // What the master sends
  // ------------------------------------------------------------------

  /** "+FULLRESYNC <replid> <offset>". */
  function ResyncText(replid: Bytes, offset: nat): Bytes
  {
    Ascii("+FULLRESYNC ") + replid + [SPACE] + Digits(offset)
  }

  /** A full resync on the wire.  The payload has no CRLF behind it. */
  function ResyncBytes(replid: Bytes, offset: nat, payload: Bytes): Bytes
  {
    ResyncText(replid, offset) + CRLF + (LengthLine(DOLLAR, |payload|) + payload)
  }

  /** A replication id: forty hexadecimal digits, of which only this matters. */
  predicate OneLine(s: Bytes) { forall i :: 0 <= i < |s| ==> s[i] != CR }

  // ------------------------------------------------------------------
  // What the replica makes of it
  // ------------------------------------------------------------------

  predicate HasPrefix(line: Bytes, prefix: Bytes)
  {
    |prefix| <= |line| && line[..|prefix|] == prefix
  }

  /** The digits at the front, as strtoll reads them. */
  function LeadingDigits(s: Bytes): (n: nat)
    ensures n <= |s| && AllDigits(s[..n])
    ensures n < |s| ==> !IsDigit(s[n])
  {
    if s == [] || !IsDigit(s[0]) then 0
    else
      var n := 1 + LeadingDigits(s[1..]);
      assert forall i :: 0 < i < |s| ==> s[i] == s[1..][i - 1];
      n
  }

  function LeadingNumber(s: Bytes): nat { DecimalValue(s[..LeadingDigits(s)]) }

  /** rfind(' '). */
  function LastSpace(s: Bytes): (r: Option<nat>)
    ensures r.Some? ==> r.value < |s| && s[r.value] == SPACE
    ensures r.Some? ==> forall i :: r.value < i < |s| ==> s[i] != SPACE
    ensures r.None? ==> forall i :: 0 <= i < |s| ==> s[i] != SPACE
  {
    if s == [] then None
    else if s[|s| - 1] == SPACE then Some(|s| - 1)
    else LastSpace(s[..|s| - 1])
  }

  function OffsetIn(line: Bytes): nat
  {
    match LastSpace(line)
    case None => 0
    case Some(i) => LeadingNumber(line[i + 1..])
  }

  lemma {:induction false} NumberReads(n: nat)
    ensures LeadingNumber(Digits(n)) == n
  {
    var s := Digits(n);
    assert LeadingDigits(s) == |s|;
    assert s[..|s|] == s;
  }

  /** The offset is recovered whatever the replication id looks like. */
  lemma {:induction false} OffsetReads(replid: Bytes, offset: nat)
    ensures OffsetIn(ResyncText(replid, offset)) == offset
    ensures HasPrefix(ResyncText(replid, offset), Ascii("+FULLRESYNC"))
  {
    var line := ResyncText(replid, offset);
    var digits := Digits(offset);
    var at := |line| - |digits| - 1;
    assert line[at] == SPACE;
    forall i | at < i < |line| ensures line[i] != SPACE {
      assert line[i] == digits[i - at - 1];
      assert IsDigit(digits[i - at - 1]);
    }
    assert LastSpace(line) == Some(at);
    assert line[at + 1..] == digits;
    NumberReads(offset);
    assert line[..11] == Ascii("+FULLRESYNC ")[..11] == Ascii("+FULLRESYNC");
  }

  lemma {:induction false} ResyncTextOneLine(replid: Bytes, offset: nat)
    requires OneLine(replid)
    ensures OneLine(ResyncText(replid, offset))
  {
    var front := Ascii("+FULLRESYNC ");
    assert front == [43, 70, 85, 76, 76, 82, 69, 83, 89, 78, 67, 32];
    var digits := Digits(offset);
    var line := ResyncText(replid, offset);
    forall i | 0 <= i < |line| ensures line[i] != CR {
      if i > |front| + |replid| {
        assert line[i] == digits[i - |front| - |replid| - 1];
        assert IsDigit(digits[i - |front| - |replid| - 1]);
      }
    }
  }

  /** A line without a carriage return ends at the first CRLF. */
  lemma {:induction false} LineEnds(line: Bytes, rest: Bytes)
    requires OneLine(line)
    ensures FindCrlf(line + CRLF + rest, 0) == Some(|line|)
  {
    FindCrlfIs(line + CRLF + rest, 0, |line|);
  }

  // ------------------------------------------------------------------
  // Reading off the socket
  // ------------------------------------------------------------------

  class SyncReader {
    var buffer: Bytes
    /** The chunks the socket has yet to deliver before it fails. */
    var incoming: seq<Bytes>

    constructor (incoming: seq<Bytes>)
      ensures buffer == [] && this.incoming == incoming
    {
      buffer, this.incoming := [], incoming;
    }

    /** Everything still to come, in order. */
    ghost function Ahead(): Bytes
      reads this
    {
      buffer + Concat(incoming)
    }

    method Fill() returns (ok: bool)
      modifies this
      ensures Ahead() == old(Ahead())
      ensures ok == (old(incoming) != [])
      ensures ok ==> |incoming| < |old(incoming)|
      ensures !ok ==> unchanged(this)
    {
      if incoming == [] {
        return false;
      }
      buffer := buffer + incoming[0];
      incoming := incoming[1..];
      ok := true;
    }

    /** The first line, if there is one; nothing behind it is touched. */
    method ReadLine() returns (ok: bool, line: Bytes)
      modifies this
      ensures ok == FindCrlf(old(Ahead()), 0).Some?
      ensures ok ==> FindCrlf(old(Ahead()), 0) == Some(|line|)
                     && old(Ahead()) == line + CRLF + Ahead()
      ensures !ok ==> Ahead() == old(Ahead())
    {
      hide FindCrlf;
      while true
        invariant Ahead() == old(Ahead())
        decreases |incoming|
      {
        var eol := FindCrlf(buffer, 0);
        if eol.Some? {
          line := buffer[..eol.value];
          assert buffer[..] == buffer;
          assert old(Ahead())[..|buffer|] == buffer;
          FindCrlfAgrees(buffer, old(Ahead()), |buffer|, 0);
          assert buffer == line + CRLF + buffer[eol.value + 2..];
          buffer := buffer[eol.value + 2..];
          return true, line;
        }
        var more := Fill();
        if !more {
          assert buffer + [] == buffer;
          return false, [];
        }
      }
    }

    method ReadExact(n: nat) returns (ok: bool, bytes: Bytes)
      modifies this
      ensures ok == (|old(Ahead())| >= n)
      ensures ok ==> |bytes| == n && old(Ahead()) == bytes + Ahead()
      ensures !ok ==> Ahead() == old(Ahead())
    {
      while |buffer| < n
        invariant Ahead() == old(Ahead())
        decreases |incoming|
      {
        var more := Fill();
        if !more {
          assert buffer + [] == buffer;
          return false, [];
        }
      }
      bytes := buffer[..n];
      assert buffer == bytes + buffer[n..];
      buffer := buffer[n..];
      ok := true;
    }
  }

  lemma {:induction false} SameLine(ahead: Bytes, text: Bytes, rest: Bytes, line: Bytes, rest': Bytes)
    requires OneLine(text) && ahead == text + CRLF + rest
    requires FindCrlf(ahead, 0) == Some(|line|) && ahead == line + CRLF + rest'
    ensures line == text && rest' == rest
  {
    hide FindCrlf;
    LineEnds(text, rest);
    assert line == ahead[..|line|] && text == ahead[..|text|];
    assert rest' == ahead[|line| + 2..] && rest == ahead[|text| + 2..];
  }

  function LineOf(ahead: Bytes): Bytes
    requires FindCrlf(ahead, 0).Some?
  {
    ahead[..FindCrlf(ahead, 0).value]
  }

  function BehindLine(ahead: Bytes): Bytes
    requires FindCrlf(ahead, 0).Some?
  {
    ahead[FindCrlf(ahead, 0).value + 2..]
  }

  /** The next line is there and starts with what is expected. */
  predicate Answered(ahead: Bytes, expected: Bytes)
  {
    FindCrlf(ahead, 0).Some? && HasPrefix(LineOf(ahead), expected)
  }

  /** One step of the handshake: the reply must start with what is expected. */
  method Expect(reader: SyncReader, expected: Bytes) returns (ok: bool, line: Bytes)
    modifies reader
    ensures forall text, rest :: OneLine(text) && old(reader.Ahead()) == text + CRLF + rest ==>
              line == text && reader.Ahead() == rest && ok == HasPrefix(text, expected)
    ensures ok <==> Answered(old(reader.Ahead()), expected)
    ensures ok ==> line == LineOf(old(reader.Ahead())) && reader.Ahead() == BehindLine(old(reader.Ahead()))
  {
    hide FindCrlf;
    ok, line := reader.ReadLine();
    if ok {
      assert old(reader.Ahead())[..|line|] == line && old(reader.Ahead())[|line| + 2..] == reader.Ahead();
    }
    forall text, rest | OneLine(text) && old(reader.Ahead()) == text + CRLF + rest
      ensures line == text && reader.Ahead() == rest && ok
    {
      LineEnds(text, rest);
      SameLine(old(reader.Ahead()), text, rest, line, reader.Ahead());
    }
    if ok {
      ok := HasPrefix(line, expected);
    }
  }

  datatype Received = Received(offset: nat, records: seq<Record>)

  /** The handshake replies and the resync, as one stream of bytes. */
  function HandshakeBytes(replid: Bytes, offset: nat, payload: Bytes): Bytes
  {
    (Ascii("+PONG") + CRLF) + ((Ascii("+OK") + CRLF) + ((Ascii("+OK") + CRLF) +
    ResyncBytes(replid, offset, payload)))
  }

  /** What the reader faces: a well-formed handshake, then the command stream. */
  ghost predicate WellSent(ahead: Bytes, replid: Bytes, offset: nat, payload: Bytes, stream: Bytes)
  {
    OneLine(replid) && ahead == HandshakeBytes(replid, offset, payload) + stream
  }

  /** The three replies of a master that takes the replica. */
  predicate Greets(ahead: Bytes)
  {
    && Answered(ahead, Ascii("+PONG"))
    && Answered(BehindLine(ahead), Ascii("+OK"))
    && Answered(BehindLine(BehindLine(ahead)), Ascii("+OK"))
  }

  function BehindGreeting(ahead: Bytes): Bytes
    requires Greets(ahead)
  {
    BehindLine(BehindLine(BehindLine(ahead)))
  }

  /** The three handshake replies. */
  method Greet(reader: SyncReader) returns (ok: bool)
    modifies reader
    ensures ok <==> Greets(old(reader.Ahead()))
    ensures ok ==> reader.Ahead() == BehindGreeting(old(reader.Ahead()))
    ensures forall rest ::
              old(reader.Ahead()) == Ascii("+PONG") + CRLF + (Ascii("+OK") + CRLF + (Ascii("+OK") + CRLF + rest))
              ==> ok && reader.Ahead() == rest
  {
    hide HasPrefix;
    hide Ascii;
    hide FindCrlf;
    hide Answered;
    ShortReplies();
    var line;
    ok, line := Expect(reader, Ascii("+PONG"));
    if ok {
      ok, line := Expect(reader, Ascii("+OK"));
    }
    if ok {
      ok, line := Expect(reader, Ascii("+OK"));
    }
  }

  /** The line announcing the resync: its offset. */
  method ReadOffset(reader: SyncReader, ghost replid: Bytes, ghost offset: nat, ghost rest: Bytes)
    returns (at: Option<nat>)
    modifies reader
    ensures OneLine(replid) && old(reader.Ahead()) == ResyncText(replid, offset) + CRLF + rest ==>
              at == Some(offset) && reader.Ahead() == rest
    ensures at.Some? <==> Answered(old(reader.Ahead()), Ascii("+FULLRESYNC"))
    ensures at.Some? ==> at.value == OffsetIn(LineOf(old(reader.Ahead())))
                         && reader.Ahead() == BehindLine(old(reader.Ahead()))
  {
    hide HasPrefix;
    hide ResyncText;
    var ok, line := Expect(reader, Ascii("+FULLRESYNC"));
    OffsetReads(replid, offset);
    if OneLine(replid) {
      ResyncTextOneLine(replid, offset);
    }
    at := if ok then Some(OffsetIn(line)) else None;
  }

  /** A length line, and at least as many bytes behind it as it announces. */
  predicate PayloadIsThere(ahead: Bytes)
  {
    Answered(ahead, [DOLLAR]) && LeadingNumber(LineOf(ahead)[1..]) <= |BehindLine(ahead)|
  }

  function PayloadIn(ahead: Bytes): Bytes
    requires PayloadIsThere(ahead)
  {
    BehindLine(ahead)[..LeadingNumber(LineOf(ahead)[1..])]
  }

  /** The payload behind its length line: exactly as many bytes as announced. */
  method ReadPayload(reader: SyncReader, ghost payload: Bytes, ghost stream: Bytes)
    returns (bytes: Option<Bytes>)
    modifies reader
    ensures old(reader.Ahead()) == LengthLine(DOLLAR, |payload|) + payload + stream ==>
              bytes == Some(payload) && reader.Ahead() == stream
    ensures bytes.Some? <==> PayloadIsThere(old(reader.Ahead()))
    ensures bytes.Some? ==> bytes.value == PayloadIn(old(reader.Ahead()))
  {
    hide HasPrefix;
    ghost var size := [DOLLAR] + Digits(|payload|);
    HeaderOneLine(|payload|);
    DollarFirst(size);
    NumberReads(|payload|);
    assert size[1..] == Digits(|payload|);
    assert LengthLine(DOLLAR, |payload|) + payload + stream == size + CRLF + (payload + stream);
    ghost var sent := reader.Ahead() == size + CRLF + (payload + stream);
    var ok, line := Expect(reader, [DOLLAR]);
    if !ok {
      return None;
    }
    DollarIsThere(line);
    ghost var before := reader.Ahead();
    var got, taken := reader.ReadExact(LeadingNumber(line[1..]));
    assert got ==> taken == before[..|taken|];
    if sent {
      assert before == payload + stream;
      assert taken == before[..|payload|] == payload;
      assert reader.Ahead() == before[|payload|..] == stream;
    }
    bytes := if got then Some(taken) else None;
  }

  /** Every reply of the handshake starts as it should, and the payload is all there. */
  predicate ResyncIsThere(ahead: Bytes)
  {
    && Greets(ahead) && Answered(BehindGreeting(ahead), Ascii("+FULLRESYNC"))
    && PayloadIsThere(BehindLine(BehindGreeting(ahead)))
  }

  function ResyncOffset(ahead: Bytes): nat
    requires ResyncIsThere(ahead)
  {
    OffsetIn(LineOf(BehindGreeting(ahead)))
  }

  function ResyncPayload(ahead: Bytes): Bytes
    requires ResyncIsThere(ahead)
  {
    PayloadIn(BehindLine(BehindGreeting(ahead)))
  }

  /** The replica's half of a full resync, up to the first byte of the command
      stream.  However the master's bytes are cut into reads, the offset and the
      records are recovered and every later byte is still there. */
  method ReceiveResync(reader: SyncReader, ghost replid: Bytes, ghost offset: nat,
                       ghost payload: Bytes, ghost stream: Bytes)
    returns (result: Option<Received>)
    modifies reader
    ensures WellSent(old(reader.Ahead()), replid, offset, payload, stream) ==>
              && reader.Ahead() == stream
              && match Rdb.Parse(payload)
                 case Parsed(records) => result == Some(Received(offset, records))
                 case Rejected(_, _) => result.None?
                 case Wrapped => true
    ensures !ResyncIsThere(old(reader.Ahead())) ==> result.None?
    ensures ResyncIsThere(old(reader.Ahead())) ==>
              match Rdb.Parse(ResyncPayload(old(reader.Ahead())))
              case Parsed(records) => result == Some(Received(ResyncOffset(old(reader.Ahead())), records))
              case Rejected(_, _) => result.None?
              case Wrapped => true
  {
    hide Rdb.Parse;
    hide ResyncText;
    hide LengthLine;
    hide HandshakeBytes;
    hide Ascii;
    hide Answered;
    hide Greets;
    hide PayloadIsThere;
    ghost var tail := LengthLine(DOLLAR, |payload|) + payload + stream;
    if WellSent(reader.Ahead(), replid, offset, payload, stream) {
      HandshakeParts(reader.Ahead(), replid, offset, payload, stream);
    }
    var greeted := Greet(reader);
    if !greeted {
      return None;
    }
    var at := ReadOffset(reader, replid, offset, tail);
    if at.None? {
      return None;
    }
    var bytes := ReadPayload(reader, payload, stream);
    if bytes.None? {
      return None;
    }
    var parsed := RdbCodec.ParseSnapshot(bytes.value);
    if !parsed.Parsed? {
      return None;
    }
    result := Some(Received(at.value, parsed.records));
  }

  lemma {:induction false} DollarIsThere(line: Bytes)
    requires HasPrefix(line, [DOLLAR])
    ensures |line| >= 1
  {}

  lemma {:induction false} HandshakeParts(
    ahead: Bytes, replid: Bytes, offset: nat, payload: Bytes, stream: Bytes)
    requires ahead == HandshakeBytes(replid, offset, payload) + stream
    ensures var tail := LengthLine(DOLLAR, |payload|) + payload + stream;
            var r3 := ResyncText(replid, offset) + CRLF + tail;
            var r2 := Ascii("+OK") + CRLF + r3;
            ahead == Ascii("+PONG") + CRLF + (Ascii("+OK") + CRLF + r2)
  {
    hide ResyncText;
    hide LengthLine;
    hide Ascii;
  }

  lemma {:induction false} ShortReplies()
    ensures OneLine(Ascii("+PONG")) && OneLine(Ascii("+OK"))
    ensures HasPrefix(Ascii("+PONG"), Ascii("+PONG")) && HasPrefix(Ascii("+OK"), Ascii("+OK"))
  {
    assert Ascii("+PONG") == [43, 80, 79, 78, 71];
    assert Ascii("+OK") == [43, 79, 75];
  }

  lemma {:induction false} HeaderOneLine(n: nat)
    ensures OneLine([DOLLAR] + Digits(n))
  {
    var digits := Digits(n);
    forall i | 0 <= i < |digits| ensures digits[i] != CR {
      assert IsDigit(digits[i]);
    }
  }

  lemma {:induction false} DollarFirst(s: Bytes)
    requires s != [] && s[0] == DOLLAR
    ensures HasPrefix(s, [DOLLAR])
  {
    assert s[..1] == [s[0]];
  }

  // ------------------------------------------------------------------
  // The command stream
  // ------------------------------------------------------------------

  /** The master asks where the replica is. */
  predicate Asks(args: Args) { args != [] && VerbOf(Upper(args[0])).Replconf? && |args| >= 2 }

  /** Keepalives and acknowledgement requests count as bytes, but are not applied. */
  predicate Swallowed(args: Args) { args != [] && (VerbOf(Upper(args[0])).Ping? || Asks(args)) }

  /** By name, in any letter case: PING is passed over, REPLCONF with an argument is
      answered, and REPLCONF alone is a command like any other. */
  lemma {:induction false} PassedOver(word: Bytes, rest: Args)
    ensures InAnyCase(word, Ascii("PING")) ==> Swallowed([word] + rest) && !Asks([word] + rest)
    ensures InAnyCase(word, Ascii("REPLCONF")) ==>
              (Asks([word] + rest) <==> rest != []) && (Swallowed([word] + rest) <==> rest != [])
  {
    hide InAnyCase;
    hide Upper;
    hide Ascii;
    CapitalText("PING");
    CapitalText("REPLCONF");
    AnyCaseIsUpper(word, Ascii("PING"));
    AnyCaseIsUpper(word, Ascii("REPLCONF"));
  }

  function Posted(commands: seq<Args>): seq<Args>
  {
    if commands == [] then []
    else
      var last := commands[|commands| - 1];
      Posted(commands[..|commands| - 1]) + if Swallowed(last) then [] else [last]
  }

  lemma {:induction false} CanonicalNotSwallowed(args: Args)
    requires Canonical(args)
    ensures !Swallowed(args)
  {
    hide VerbOf;
    hide Upper;
    WriteCommandsWrite(Upper(args[0]));
  }

  /** No streamed write is swallowed: all of them are posted, in order. */
  lemma {:induction false} CanonicalAllPosted(commands: seq<Args>)
    requires forall i :: 0 <= i < |commands| ==> Canonical(commands[i])
    ensures Posted(commands) == commands
  {
    hide Canonical;
    hide Swallowed;
    if commands != [] {
      CanonicalAllPosted(commands[..|commands| - 1]);
      CanonicalNotSwallowed(commands[|commands| - 1]);
    }
  }

  /** What is left of the stream, the offset reached, the commands posted and the
      acknowledgements sent. */
  datatype Taken = Taken(rest: Bytes, offset: nat, posted: seq<Args>, acks: seq<nat>)

  function PostedFor(args: Args): seq<Args> { if args == [] || Swallowed(args) then [] else [args] }

  function AckFor(args: Args, offset: nat): seq<nat> { if Asks(args) then [offset] else [] }

  /** Taking every whole command off the front of the stream: the offset counts the
      command itself before it is acknowledged. */
  function TakeAll(stream: Bytes, offset: nat): Taken
    decreases |stream|
  {
    ConsumedWithinInput(stream);
    match Parse(stream)
    case Ok(args, consumed) =>
      var more := TakeAll(stream[consumed..], offset + consumed);
      more.(posted := PostedFor(args) + more.posted, acks := AckFor(args, offset + consumed) + more.acks)
    case _ => Taken(stream, offset, [], [])
  }

  /** A taking in progress. */
  predicate Taking(all: Taken, stream: Bytes, offset: nat, posted: seq<Args>, acks: seq<nat>)
  {
    var more := TakeAll(stream, offset);
    all == more.(posted := posted + more.posted, acks := acks + more.acks)
  }

  lemma {:induction false} TakingTurn(all: Taken, stream: Bytes, offset: nat, posted: seq<Args>, acks: seq<nat>)
    requires Taking(all, stream, offset, posted, acks)
    ensures !Parse(stream).Ok? ==> all == Taken(stream, offset, posted, acks)
    ensures Parse(stream).Ok? ==>
              var Ok(args, consumed) := Parse(stream);
              && 0 < consumed <= |stream|
              && Taking(all, stream[consumed..], offset + consumed,
                        posted + PostedFor(args), acks + AckFor(args, offset + consumed))
  {
    hide Parse;
    hide PostedFor;
    hide AckFor;
    ConsumedWithinInput(stream);
    if Parse(stream).Ok? {
      var Ok(args, consumed) := Parse(stream);
      var more := TakeAll(stream[consumed..], offset + consumed);
      assert posted + (PostedFor(args) + more.posted) == posted + PostedFor(args) + more.posted;
      var ack := AckFor(args, offset + consumed);
      assert acks + (ack + more.acks) == acks + ack + more.acks;
    }
  }

  /** Taking is draining: nothing but the swallowed commands is left out, the offset
      advances by exactly the bytes removed, and no acknowledgement is ahead of it. */
  lemma {:induction false} TakingIsDraining(stream: Bytes, offset: nat)
    ensures var d := Drain(stream);
            var all := TakeAll(stream, offset);
            && all.rest == d.rest && all.posted == Posted(d.commands)
            && offset <= all.offset && all.offset + |all.rest| == offset + |stream|
            && forall a :: a in all.acks ==> offset < a <= all.offset
    decreases |stream|
  {
    hide Parse;
    hide Posted;
    hide PostedFor;
    hide AckFor;
    hide Command;
    ConsumedWithinInput(stream);
    if Parse(stream).Ok? {
      var Ok(args, consumed) := Parse(stream);
      TakingIsDraining(stream[consumed..], offset + consumed);
      PostedFront(Command(args), Drain(stream[consumed..]).commands);
      PostedOne(args, offset + consumed);
    } else {
      PostedNone();
    }
  }

  lemma {:induction false} PostedOne(args: Args, offset: nat)
    ensures Posted(Command(args)) == PostedFor(args)
    ensures forall a :: a in AckFor(args, offset) ==> a == offset
  {
    hide Swallowed;
    hide Asks;
    assert args != [] ==> Command(args)[..0] == [];
  }

  lemma {:induction false} PostedNone()
    ensures Posted([]) == []
  {}

  lemma {:induction false} PostedFront(a: seq<Args>, b: seq<Args>)
    ensures Posted(a + b) == Posted(a) + Posted(b)
    decreases |b|
  {
    hide Swallowed;
    if b == [] {
      assert a + b == a;
    } else {
      assert (a + b)[..|a + b| - 1] == a + b[..|b| - 1];
      PostedFront(a, b[..|b| - 1]);
    }
  }

  /** The inner loop of the stream: parse what has arrived, advance the offset by
      every byte parsed, acknowledge when asked, and post the commands to be applied. */
  method TakeCommands(stream: Bytes, offset: nat)
    returns (rest: Bytes, offset': nat, posted: seq<Args>, acks: seq<nat>)
    ensures Taken(rest, offset', posted, acks) == TakeAll(stream, offset)
    ensures rest == Drain(stream).rest && posted == Posted(Drain(stream).commands)
    ensures offset' + |rest| == offset + |stream|
  {
    hide Parse;
    hide Drain;
    hide TakeAll;
    hide Taking;
    hide Swallowed;
    hide Asks;
    hide Posted;
    rest, offset', posted, acks := stream, offset, [], [];
    ghost var all := TakeAll(stream, offset);
    StartTaking(stream, offset);
    TakingIsDraining(stream, offset);
    while true
      invariant Taking(all, rest, offset', posted, acks)
      decreases |rest|
    {
      TakingTurn(all, rest, offset', posted, acks);
      var result := ParseRequest(rest);
      if !result.Ok? {
        break;
      }
      rest := rest[result.consumed..];
      offset' := offset' + result.consumed;
      if Asks(result.args) {
        acks := acks + [offset'];
      } else {
        assert acks + [] == acks;
      }
      posted := posted + PostedFor(result.args);
    }
  }

  lemma {:induction false} StartTaking(stream: Bytes, offset: nat)
    ensures Taking(TakeAll(stream, offset), stream, offset, [], [])
  {
    hide TakeAll;
    var all := TakeAll(stream, offset);
    assert [] + all.posted == all.posted && [] + all.acks == all.acks;
  }
}
