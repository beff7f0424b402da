/** The request parser and the command encoder of the Redis serialization
    protocol, and the framing theorems everything downstream relies on: the
    encoder is inverted, a complete request is recognised from its own bytes
    alone, and a request cut anywhere is reported as incomplete. */
module Resp {
  import opened ByteStrings

  const STAR: byte := 42
  const DOLLAR: byte := 36

  const MAX_MULTIBULK: int := 1024 * 1024
  const MAX_BULK: int := 512 * 1024 * 1024
  const MAX_INLINE: int := 64 * 1024
  const MAX_HEADER: int := 64

  datatype ProtocolError =
    | TooBigInline
    | TooBigMultibulkCount
    | InvalidMultibulkLength
    | ExpectedDollar(got: byte)
    | TooBigBulkCount
    | InvalidBulkLength
    | UnbalancedBulk

  datatype ParseResult =
    | Ok(args: Args, consumed: nat)
    | Incomplete
    | Error(error: ProtocolError)

  // ------------------------------------------------------------------
  // Specification of the parser
  // ------------------------------------------------------------------

  function SkipWhile(line: Bytes, i: nat, spaces: bool): (j: nat)
    requires i <= |line|
    ensures i <= j <= |line|
    ensures forall k :: i <= k < j ==> IsSpace(line[k]) == spaces
    ensures j < |line| ==> IsSpace(line[j]) != spaces
    decreases |line| - i
  {
    if i < |line| && IsSpace(line[i]) == spaces then SkipWhile(line, i + 1, spaces) else i
  }

  /** The whitespace-separated words of `line` from index `i` on. */
  function Words(line: Bytes, i: nat): Args
    requires i <= |line|
    decreases |line| - i
  {
    var start := SkipWhile(line, i, true);
    var stop := SkipWhile(line, start, false);
    if stop == start then [] else [line[start..stop]] + Words(line, stop)
  }

  function ParseInline(input: Bytes): ParseResult
  {
    match FindCrlf(input, 0)
    case None => if |input| > MAX_INLINE then Error(TooBigInline) else Incomplete
    case Some(eol) =>
      if eol > MAX_INLINE then Error(TooBigInline)
      else Ok(Words(input[..eol], 0), eol + 2)
  }

  /** One bulk string at `pos`: Ok carries it as its only argument and, as
      `consumed`, the index just past it. */
  function ParseBulk(input: Bytes, pos: nat): (r: ParseResult)
    ensures r.Ok? ==>
              && |r.args| == 1 && pos < r.consumed <= |input|
              && FindCrlf(input, pos).Some? && FindCrlf(input, pos).value + 2 <= r.consumed
  {
    if pos >= |input| then Incomplete
    else if input[pos] != DOLLAR then Error(ExpectedDollar(input[pos]))
    else match FindCrlf(input, pos)
      case None => if |input| - pos > MAX_HEADER then Error(TooBigBulkCount) else Incomplete
      case Some(lenEnd) =>
        var len := ParseInt(input[pos + 1..lenEnd]);
        if len.None? || len.value < 0 || len.value > MAX_BULK then Error(InvalidBulkLength)
        else
          var body := lenEnd + 2;
          var need := body + len.value + 2;
          if |input| < need then Incomplete
          else if input[body + len.value..need] != CRLF then Error(UnbalancedBulk)
          else Ok([input[body..body + len.value]], need)
  }

  function ParseBulks(input: Bytes, pos: nat, count: nat): ParseResult
    decreases count
  {
    if count == 0 then Ok([], pos)
    else
      var first := ParseBulk(input, pos);
      if !first.Ok? then first
      else
        var rest := ParseBulks(input, first.consumed, count - 1);
        if rest.Ok? then Ok(first.args + rest.args, rest.consumed) else rest
  }

  /** The whole parser: inline or multibulk, by the first byte. */
  function Parse(input: Bytes): ParseResult
  {
    if input == [] then Incomplete
    else if input[0] != STAR then ParseInline(input)
    else match FindCrlf(input, 0)
      case None => if |input| > MAX_HEADER then Error(TooBigMultibulkCount) else Incomplete
      case Some(headerEnd) =>
        var argc := ParseInt(input[1..headerEnd]);
        if argc.None? || argc.value > MAX_MULTIBULK then Error(InvalidMultibulkLength)
        else if argc.value <= 0 then Ok([], headerEnd + 2)
        else ParseBulks(input, headerEnd + 2, argc.value)
  }

  // ------------------------------------------------------------------
  // The parser as the server runs it
  // ------------------------------------------------------------------

  method SplitLine(line: Bytes) returns (words: Args)
    ensures words == Words(line, 0)
  {
    words := [];
    var i := 0;
    while i < |line|
      invariant 0 <= i <= |line|
      invariant words + Words(line, i) == Words(line, 0)
    {
      ghost var i0 := i;
      while i < |line| && IsSpace(line[i])
        invariant i0 <= i <= |line|
        invariant SkipWhile(line, i, true) == SkipWhile(line, i0, true)
      {
        i := i + 1;
      }
      var start := i;
      while i < |line| && !IsSpace(line[i])
        invariant start <= i <= |line|
        invariant SkipWhile(line, i, false) == SkipWhile(line, start, false)
      {
        i := i + 1;
      }
      if i > start {
        words := words + [line[start..i]];
      }
    }
  }

  method ParseInlineRequest(input: Bytes) returns (r: ParseResult)
    ensures r == ParseInline(input)
  {
    var eol := FindCrlf(input, 0);
    if eol.None? {
      return if |input| > MAX_INLINE then Error(TooBigInline) else Incomplete;
    }
    if eol.value > MAX_INLINE {
      return Error(TooBigInline);
    }
    var words := SplitLine(input[..eol.value]);
    r := Ok(words, eol.value + 2);
  }

  /** One turn of the argument loop of parse_request. */
  method ParseOneBulk(input: Bytes, pos: nat) returns (r: ParseResult)
    ensures r == ParseBulk(input, pos)
  {
    if pos >= |input| {
      return Incomplete;
    }
    if input[pos] != DOLLAR {
      return Error(ExpectedDollar(input[pos]));
    }
    var lenEnd := FindCrlf(input, pos);
    if lenEnd.None? {
      return if |input| - pos > MAX_HEADER then Error(TooBigBulkCount) else Incomplete;
    }
    var len := ParseIntLoop(input[pos + 1..lenEnd.value]);
    if len.None? || len.value < 0 || len.value > MAX_BULK {
      return Error(InvalidBulkLength);
    }
    var body := lenEnd.value + 2;
    var need := body + len.value + 2;
    if |input| < need {
      return Incomplete;
    }
    if input[body + len.value..need] != CRLF {
      return Error(UnbalancedBulk);
    }
    r := Ok([input[body..body + len.value]], need);
  }

  method ParseRequest(input: Bytes) returns (r: ParseResult)
    ensures r == Parse(input)
  {
    hide ParseBulk;
    hide ParseInline;
    hide ParseInt;
    if input == [] {
      return Incomplete;
    }
    if input[0] != STAR {
      r := ParseInlineRequest(input);
      return;
    }
    var headerEnd := FindCrlf(input, 0);
    if headerEnd.None? {
      return if |input| > MAX_HEADER then Error(TooBigMultibulkCount) else Incomplete;
    }
    var argc := ParseIntLoop(input[1..headerEnd.value]);
    if argc.None? || argc.value > MAX_MULTIBULK {
      return Error(InvalidMultibulkLength);
    }
    var pos: nat := headerEnd.value + 2;
    if argc.value <= 0 {
      return Ok([], pos);
    }

    var args: Args := [];
    var i := 0;
    while i < argc.value
      invariant 0 <= i <= argc.value
      invariant var rest := ParseBulks(input, pos, argc.value - i);
                Parse(input) == if rest.Ok? then Ok(args + rest.args, rest.consumed) else rest
    {
      var bulk := ParseOneBulk(input, pos);
      if !bulk.Ok? {
        return bulk;
      }
      args := args + bulk.args;
      pos := bulk.consumed;
      i := i + 1;
    }
    r := Ok(args, pos);
  }

  // ------------------------------------------------------------------
  // The encoder
  // ------------------------------------------------------------------

  /** The digits of a length, with the mark in front and the CRLF behind. */
  function LengthLine(mark: byte, n: nat): Bytes { [mark] + Digits(n) + CRLF }

  /** reply::bulk. */
  function Bulk(s: Bytes): Bytes { LengthLine(DOLLAR, |s|) + s + CRLF }

  function Bulks(args: Args): Bytes
  {
    if args == [] then [] else Bulk(args[0]) + Bulks(args[1..])
  }

  /** reply::array_header. */
  function Header(n: nat): Bytes { LengthLine(STAR, n) }

  /** Aof::encode, used for the log and for the replication stream. */
  function Encode(args: Args): Bytes { Header(|args|) + Bulks(args) }

  lemma {:induction false} BulksAppend(args: Args, last: Bytes)
    ensures Bulks(args + [last]) == Bulks(args) + Bulk(last)
  {
    if args == [] {
      assert args + [last] == [last];
      assert Bulks([last]) == Bulk(last) + Bulks([]);
    } else {
      assert (args + [last])[1..] == args[1..] + [last];
      BulksAppend(args[1..], last);
    }
  }

  method EncodeCommand(args: Args) returns (out: Bytes)
    ensures out == Encode(args)
  {
    out := Header(|args|);
    for i := 0 to |args|
      invariant out == Header(|args|) + Bulks(args[..i])
    {
      BulksAppend(args[..i], args[i]);
      assert args[..i + 1] == args[..i] + [args[i]];
      out := out + Bulk(args[i]);
    }
    assert args[..|args|] == args;
  }

  /** The commands whose encoding stays inside the protocol limits. */
  predicate WithinLimits(args: Args)
  {
    && |args| <= MAX_MULTIBULK
    && forall i :: 0 <= i < |args| ==> |args[i]| <= MAX_BULK
  }

  // ------------------------------------------------------------------
  // Totality and stability
  // ------------------------------------------------------------------

  lemma {:induction false} BulksConsumed(input: Bytes, pos: nat, count: nat)
    requires pos <= |input| && ParseBulks(input, pos, count).Ok?
    ensures pos <= ParseBulks(input, pos, count).consumed <= |input|
    ensures |ParseBulks(input, pos, count).args| == count
    decreases count
  {
    if count > 0 {
      BulksConsumed(input, ParseBulk(input, pos).consumed, count - 1);
    }
  }

  /** A complete request is never empty and never longer than the input. */
  lemma {:induction false} ConsumedWithinInput(input: Bytes)
    ensures Parse(input).Ok? ==> 0 < Parse(input).consumed <= |input|
  {
    var r := Parse(input);
    if r.Ok? && input[0] == STAR {
      var headerEnd := FindCrlf(input, 0).value;
      var argc := ParseInt(input[1..headerEnd]).value;
      if argc > 0 {
        BulksConsumed(input, headerEnd + 2, argc);
      }
    }
  }

  predicate AgreeUpTo(a: Bytes, b: Bytes, n: nat) { n <= |a| && n <= |b| && a[..n] == b[..n] }

  lemma {:induction false} AgreeSlice(a: Bytes, b: Bytes, n: nat, lo: nat, hi: nat)
    requires AgreeUpTo(a, b, n) && lo <= hi <= n
    ensures a[lo..hi] == b[lo..hi]
  {
    assert a[lo..hi] == a[..n][lo..hi];
    assert b[lo..hi] == b[..n][lo..hi];
  }

  lemma {:induction false} AgreeIndex(a: Bytes, b: Bytes, n: nat, i: nat)
    requires AgreeUpTo(a, b, n) && i < n
    ensures a[i] == b[i]
  {
    assert a[i] == a[..n][i];
    assert b[i] == b[..n][i];
  }

  lemma {:induction false} FindCrlfAgrees(a: Bytes, b: Bytes, n: nat, from: nat)
    requires AgreeUpTo(a, b, n)
    requires FindCrlf(a, from).Some? && FindCrlf(a, from).value + 2 <= n
    ensures FindCrlf(b, from) == FindCrlf(a, from)
  {
    var at := FindCrlf(a, from).value;
    forall i | 0 <= i < n ensures a[i] == b[i] {
      AgreeIndex(a, b, n, i);
    }
    assert CrlfAt(b, at);
    assert forall i :: from <= i < at ==> !CrlfAt(a, i) && !CrlfAt(b, i);
  }

  lemma {:induction false} BulkStable(a: Bytes, b: Bytes, n: nat, pos: nat)
    requires ParseBulk(a, pos).Ok? && ParseBulk(a, pos).consumed <= n
    requires AgreeUpTo(a, b, n)
    ensures ParseBulk(b, pos) == ParseBulk(a, pos)
  {
    hide FindCrlf;
    hide ParseInt;
    FindCrlfAgrees(a, b, n, pos);
    var lenEnd := FindCrlf(a, pos).value;
    var len := ParseInt(a[pos + 1..lenEnd]).value;
    AgreeIndex(a, b, n, pos);
    AgreeSlice(a, b, n, pos + 1, lenEnd);
    AgreeSlice(a, b, n, lenEnd + 2, lenEnd + 2 + len);
    AgreeSlice(a, b, n, lenEnd + 2 + len, lenEnd + 2 + len + 2);
  }

  lemma {:induction false} BulksStable(a: Bytes, b: Bytes, n: nat, pos: nat, count: nat)
    requires pos <= |a|
    requires ParseBulks(a, pos, count).Ok? && ParseBulks(a, pos, count).consumed <= n
    requires AgreeUpTo(a, b, n)
    ensures ParseBulks(b, pos, count) == ParseBulks(a, pos, count)
    decreases count
  {
    hide ParseBulk;
    if count > 0 {
      var next := ParseBulk(a, pos).consumed;
      BulksConsumed(a, next, count - 1);
      BulkStable(a, b, n, pos);
      BulksStable(a, b, n, next, count - 1);
    }
  }

  /** A complete request depends on its own bytes only: any input with the same
      first `consumed` bytes parses to the same request. */
  lemma {:induction false} OkIsStable(a: Bytes, b: Bytes)
    requires Parse(a).Ok? && AgreeUpTo(a, b, Parse(a).consumed)
    ensures Parse(b) == Parse(a)
  {
    hide ParseBulks;
    hide Words;
    ConsumedWithinInput(a);
    var n := Parse(a).consumed;
    AgreeIndex(a, b, n, 0);
    var end := FindCrlf(a, 0).value;
    if a[0] == STAR {
      var argc := ParseInt(a[1..end]).value;
      if argc > 0 {
        BulksConsumed(a, end + 2, argc);
      }
      FindCrlfAgrees(a, b, n, 0);
      AgreeSlice(a, b, n, 1, end);
      if argc > 0 {
        BulksStable(a, b, n, end + 2, argc);
      }
    } else {
      FindCrlfAgrees(a, b, n, 0);
      AgreeSlice(a, b, n, 0, end);
      assert a[..end] == a[0..end] && b[..end] == b[0..end];
    }
  }

  // ------------------------------------------------------------------
  // The encoder is inverted, and its prefixes are incomplete
  // ------------------------------------------------------------------

  /** The first CRLF of a length line is the one that ends it. */
  lemma {:induction false} LengthLineEnds(input: Bytes, pos: nat, mark: byte, n: nat)
    requires mark != CR && At(input, pos, LengthLine(mark, n))
    ensures var end := pos + 1 + |Digits(n)|;
            && FindCrlf(input, pos) == Some(end)
            && input[pos] == mark
            && input[pos + 1..end] == Digits(n)
  {
    var digits := Digits(n);
    var end := pos + 1 + |digits|;
    AtParts(input, pos, [mark] + digits, CRLF);
    AtParts(input, pos, [mark], digits);
    assert input[pos] == input[pos..pos + 1][0];
    forall i | pos < i < end ensures input[i] != CR {
      assert input[i] == input[pos + 1..end][i - pos - 1];
      assert IsDigit(digits[i - pos - 1]);
    }
    assert input[end] == input[end..end + 2][0];
    assert input[end + 1] == input[end..end + 2][1];
    FindCrlfIs(input, pos, end);
  }

  lemma {:induction false} SmallDigits(n: nat)
    requires n <= MAX_BULK
    ensures |Digits(n)| <= 10
  {
    PowerOfTen19();
    DigitsShort(n, 10);
  }

  lemma {:induction false} BulkParses(input: Bytes, pos: nat, s: Bytes)
    requires At(input, pos, Bulk(s))
    ensures if |s| <= MAX_BULK
            then ParseBulk(input, pos) == Ok([s], pos + |Bulk(s)|)
            else !ParseBulk(input, pos).Ok?
  {
    hide Digits;
    hide ParseInt;
    hide FindCrlf;
    var line := LengthLine(DOLLAR, |s|);
    assert Bulk(s) == line + (s + CRLF);
    AtParts(input, pos, line, s + CRLF);
    AtParts(input, pos + |line|, s, CRLF);
    LengthLineEnds(input, pos, DOLLAR, |s|);
    DigitsOnly(|s|);
  }

  lemma {:induction false} DigitsOnly(n: nat)
    ensures ParseInt(Digits(n)) == if n <= INT64_MAX then Some(n) else None
  {
    hide Digits;
    assert IsDigit(Digits(n)[0]);
  }

  predicate ShortEnough(args: Args) { forall i :: 0 <= i < |args| ==> |args[i]| <= MAX_BULK }

  lemma {:induction false} ShortEnoughTail(args: Args)
    requires args != []
    ensures ShortEnough(args) <==> |args[0]| <= MAX_BULK && ShortEnough(args[1..])
  {
    assert forall i :: 0 < i < |args| ==> args[i] == args[1..][i - 1];
  }

  lemma {:induction false} BulksParse(input: Bytes, pos: nat, args: Args)
    requires At(input, pos, Bulks(args))
    ensures if ShortEnough(args)
            then ParseBulks(input, pos, |args|) == Ok(args, pos + |Bulks(args)|)
            else !ParseBulks(input, pos, |args|).Ok?
    decreases |args|
  {
    hide ParseBulk;
    hide Bulk;
    hide At;
    if args != [] {
      AtParts(input, pos, Bulk(args[0]), Bulks(args[1..]));
      BulkParses(input, pos, args[0]);
      ShortEnoughTail(args);
      BulksParse(input, pos + |Bulk(args[0])|, args[1..]);
      assert args == [args[0]] + args[1..];
    }
  }

  /** Parsing inverts encoding, whatever follows, exactly for the commands that
      stay within the protocol limits. */
  lemma {:induction false} EncodeParses(args: Args, rest: Bytes)
    ensures Parse(Encode(args) + rest) == Ok(args, |Encode(args)|) <==> WithinLimits(args)
  {
    hide Digits;
    hide DecimalValue;
    hide ParseBulks;
    hide Words;
    var input := Encode(args) + rest;
    var line := Header(|args|);
    assert input[0..|Encode(args)|] == Encode(args);
    AtParts(input, 0, line, Bulks(args));
    LengthLineEnds(input, 0, STAR, |args|);
    assert IsDigit(Digits(|args|)[0]);
    BulksParse(input, |line|, args);
  }

  // ------------------------------------------------------------------
  // Requests cut short
  // ------------------------------------------------------------------

  lemma {:induction false} FindCrlfInPrefix(input: Bytes, from: nat, n: nat)
    requires n <= |input|
    ensures var r := FindCrlf(input, from);
            FindCrlf(input[..n], from) == if r.Some? && r.value + 2 <= n then r else None
  {
    var cut := input[..n];
    assert forall i :: CrlfAt(cut, i) ==> CrlfAt(input, i);
    var r := FindCrlf(input, from);
    if r.Some? && r.value + 2 <= n {
      assert CrlfAt(cut, r.value);
    }
  }

  /** What a bulk string cut after `n` bytes of the input looks like: incomplete,
      unless its length line is still open after more than 64 bytes. */
  lemma {:induction false} BulkCut(input: Bytes, pos: nat, n: nat)
    requires ParseBulk(input, pos).Ok? && pos <= n < ParseBulk(input, pos).consumed
    ensures var lineEnd := FindCrlf(input, pos).value + 2;
            ParseBulk(input[..n], pos) ==
            if n < lineEnd && n - pos > MAX_HEADER then Error(TooBigBulkCount) else Incomplete
  {
    hide FindCrlf;
    FindCrlfInPrefix(input, pos, n);
    var lenEnd := FindCrlf(input, pos).value;
    if lenEnd + 2 <= n {
      assert input[..n][pos + 1..lenEnd] == input[pos + 1..lenEnd];
    }
  }

  /** No length line of the next `count` bulk strings reaches the 64-byte guard. */
  predicate ShortLines(input: Bytes, pos: nat, count: nat)
    decreases count
  {
    count == 0 ||
    (var first := ParseBulk(input, pos);
     first.Ok? ==>
       && FindCrlf(input, pos).value - pos < MAX_HEADER
       && ShortLines(input, first.consumed, count - 1))
  }

  lemma {:induction false} BulksCut(input: Bytes, pos: nat, count: nat, n: nat)
    requires pos <= |input| && ParseBulks(input, pos, count).Ok?
    requires pos <= n <= |input| && n < ParseBulks(input, pos, count).consumed
    requires ShortLines(input, pos, count)
    ensures ParseBulks(input[..n], pos, count) == Incomplete
    decreases count
  {
    hide FindCrlf;
    hide ParseBulk;
    BulksConsumed(input, pos, count);
    var next := ParseBulk(input, pos).consumed;
    if n < next {
      BulkCut(input, pos, n);
    } else {
      BulkStable(input, input[..n], n, pos);
      BulksCut(input, next, count - 1, n);
    }
  }

  /** Conversely, a length line that is too long trips the guard when the input
      stops right before its line feed. */
  lemma {:induction false} BulksTrip(input: Bytes, pos: nat, count: nat) returns (n: nat)
    requires pos <= |input| && ParseBulks(input, pos, count).Ok?
    requires !ShortLines(input, pos, count)
    ensures pos <= n < ParseBulks(input, pos, count).consumed
    ensures n <= |input| && ParseBulks(input[..n], pos, count).Error?
    decreases count
  {
    hide FindCrlf;
    hide ParseBulk;
    BulksConsumed(input, pos, count);
    var next := ParseBulk(input, pos).consumed;
    BulksConsumed(input, next, count - 1);
    if FindCrlf(input, pos).value - pos >= MAX_HEADER {
      n := FindCrlf(input, pos).value + 1;
      BulkCut(input, pos, n);
    } else {
      n := BulksTrip(input, next, count - 1);
      BulkStable(input, input[..n], n, pos);
    }
  }

  /** `input` is exactly one complete request. */
  predicate Frame(input: Bytes) { Parse(input).Ok? && Parse(input).consumed == |input| }

  /** However much of the request has arrived, the parser just waits. */
  ghost predicate Splittable(input: Bytes)
  {
    Frame(input) && forall n :: 0 <= n < |input| ==> Parse(input[..n]) == Incomplete
  }

  /** Every line of the request stops before the guard that watches its length:
      what a sender can check. */
  predicate LinesWithinGuards(input: Bytes)
  {
    if input == [] then true
    else match FindCrlf(input, 0)
      case None => true
      case Some(end) =>
        if input[0] != STAR then end < MAX_INLINE
        else
          var argc := ParseInt(input[1..end]);
          && end < MAX_HEADER
          && (argc.Some? && argc.value > 0 ==> ShortLines(input, end + 2, argc.value))
  }

  lemma {:induction false} FirstLineCut(input: Bytes, n: nat)
    requires Frame(input) && 0 < n < FindCrlf(input, 0).value + 2
    requires n < |input|
    ensures var guard := if input[0] == STAR then MAX_HEADER else MAX_INLINE;
            if n > guard then Parse(input[..n]).Error? else Parse(input[..n]) == Incomplete
  {
    hide FindCrlf;
    hide ParseBulks;
    hide Words;
    FindCrlfInPrefix(input, 0, n);
    assert input[..n][0] == input[0];
  }

  lemma {:induction false} FrameCut(input: Bytes, n: nat)
    requires Frame(input) && LinesWithinGuards(input) && n < |input|
    ensures Parse(input[..n]) == Incomplete
  {
    hide FindCrlf;
    hide ParseBulks;
    hide ParseInt;
    hide ShortLines;
    hide Words;
    if n == 0 {
      assert input[..n] == [];
    } else {
      var end := FindCrlf(input, 0).value;
      if n < end + 2 {
        FirstLineCut(input, n);
      } else {
        FindCrlfInPrefix(input, 0, n);
        assert input[..n][1..end] == input[1..end];
        BulksCut(input, end + 2, ParseInt(input[1..end]).value, n);
      }
    }
  }

  lemma {:induction false} FrameTrips(input: Bytes) returns (n: nat)
    requires Frame(input) && !LinesWithinGuards(input)
    ensures n < |input| && Parse(input[..n]).Error?
  {
    ConsumedWithinInput(input);
    hide FindCrlf;
    hide ParseBulks;
    hide ShortLines;
    hide Words;
    var end := FindCrlf(input, 0).value;
    var argc := ParseInt(input[1..end]);
    if input[0] == STAR && argc.value > 0 {
      BulksConsumed(input, end + 2, argc.value);
    }
    if end + 1 > (if input[0] == STAR then MAX_HEADER else MAX_INLINE) {
      n := end + 1;
      FirstLineCut(input, n);
    } else {
      n := BulksTrip(input, end + 2, argc.value);
      FindCrlfInPrefix(input, 0, n);
      assert input[..n][1..end] == input[1..end];
    }
  }

  /** A request survives every way of being cut exactly when its lines stay
      within the guards. */
  lemma {:induction false} SplittableExactly(input: Bytes)
    requires Frame(input)
    ensures Splittable(input) <==> LinesWithinGuards(input)
  {
    if LinesWithinGuards(input) {
      forall n | 0 <= n < |input| ensures Parse(input[..n]) == Incomplete {
        FrameCut(input, n);
      }
    } else {
      var n := FrameTrips(input);
    }
  }

  lemma {:induction false} EncodedLinesShort(input: Bytes, pos: nat, args: Args)
    requires ShortEnough(args) && At(input, pos, Bulks(args))
    ensures ShortLines(input, pos, |args|)
    decreases |args|
  {
    hide At;
    hide Bulk;
    hide ParseBulk;
    hide FindCrlf;
    if args != [] {
      var first := Bulk(args[0]);
      AtParts(input, pos, first, Bulks(args[1..]));
      BulkParses(input, pos, args[0]);
      ShortEnoughTail(args);
      BulkLineShort(input, pos, args[0]);
      EncodedLinesShort(input, pos + |first|, args[1..]);
    }
  }

  lemma {:induction false} BulkLineShort(input: Bytes, pos: nat, s: Bytes)
    requires |s| <= MAX_BULK && At(input, pos, Bulk(s))
    ensures FindCrlf(input, pos).Some? && FindCrlf(input, pos).value - pos < MAX_HEADER
  {
    var line := LengthLine(DOLLAR, |s|);
    assert Bulk(s) == line + (s + CRLF);
    AtParts(input, pos, line, s + CRLF);
    LengthLineEnds(input, pos, DOLLAR, |s|);
    SmallDigits(|s|);
  }

  /** An encoded command is one request, and one that can be cut anywhere. */
  lemma {:induction false} EncodedIsSplittable(args: Args)
    requires WithinLimits(args)
    ensures Splittable(Encode(args)) && Parse(Encode(args)) == Ok(args, |Encode(args)|)
  {
    hide Parse;
    hide Encode;
    hide LinesWithinGuards;
    hide Splittable;
    assert Encode(args) + [] == Encode(args);
    EncodeParses(args, []);
    EncodedWithinGuards(args);
    SplittableExactly(Encode(args));
  }

  lemma {:induction false} EncodedWithinGuards(args: Args)
    requires WithinLimits(args)
    ensures LinesWithinGuards(Encode(args))
  {
    hide FindCrlf;
    hide ShortLines;
    hide ParseInt;
    hide Bulks;
    hide Digits;
    var input := Encode(args);
    var line := Header(|args|);
    assert input[0..|input|] == input;
    AtParts(input, 0, line, Bulks(args));
    LengthLineEnds(input, 0, STAR, |args|);
    SmallDigits(|args|);
    DigitsParse(|args|);
    EncodedLinesShort(input, |line|, args);
  }

  /** The guard is not idle: a request padded with leading zeros is accepted
      whole and refused when it arrives in two pieces. */
  lemma {:induction false} PaddedHeaderDependsOnSplit()
    ensures var request := [STAR] + seq(64, _ => 48 as byte) + CRLF;
            && Parse(request) == Ok([], 67)
            && Parse(request[..65]) == Error(TooBigMultibulkCount)
  {
    var zeros := seq(64, _ => 48 as byte);
    var request := [STAR] + zeros + CRLF;
    ZerosAreZero(zeros);
    FindCrlfIs(request, 0, 65);
    assert request[1..65] == zeros;
    FindCrlfInPrefix(request, 0, 65);
  }

  lemma {:induction false} ZerosAreZero(zeros: Bytes)
    requires forall i :: 0 <= i < |zeros| ==> zeros[i] == 48
    ensures DecimalValue(zeros) == 0
  {
    if zeros != [] {
      ZerosAreZero(zeros[..|zeros| - 1]);
    }
  }

  // ------------------------------------------------------------------
  // Inline requests
  // ------------------------------------------------------------------

  predicate Word(w: Bytes) { w != [] && forall i :: 0 <= i < |w| ==> !IsSpace(w[i]) }

  predicate Blank(gap: Bytes) { forall i :: 0 <= i < |gap| ==> IsSpace(gap[i]) }

  /** White space between the words, at least a byte of it, and any amount, or none,
      before the first and behind the last. */
  predicate Apart(words: Args, gaps: seq<Bytes>)
  {
    && |gaps| == |words| + 1
    && (forall i :: 0 <= i < |words| ==> Word(words[i]))
    && (forall i :: 0 <= i < |gaps| ==> Blank(gaps[i]))
    && (forall i :: 0 < i < |words| ==> gaps[i] != [])
  }

  function Spread(words: Args, gaps: seq<Bytes>): Bytes
    requires |gaps| == |words| + 1
  {
    if words == [] then gaps[0] else gaps[0] + (words[0] + Spread(words[1..], gaps[1..]))
  }

  /** White space standing at `i` does not matter. */
  lemma {:induction false} SkipBlank(line: Bytes, i: nat, gap: Bytes)
    requires Blank(gap) && At(line, i, gap)
    ensures Words(line, i) == Words(line, i + |gap|)
    decreases |gap|
  {
    hide Words;
    hide IsSpace;
    if gap != [] {
      assert line[i] == line[i..i + |gap|][0] == gap[0];
      AtParts(line, i, gap[..1], gap[1..]) by { assert gap[..1] + gap[1..] == gap; }
      SkipOne(line, i);
      SkipBlank(line, i + 1, gap[1..]);
    }
  }

  /** The word standing at `i`, with white space or the end behind it, is read next. */
  lemma {:induction false} WordAt(line: Bytes, i: nat, w: Bytes)
    requires Word(w) && At(line, i, w)
    requires i + |w| < |line| ==> IsSpace(line[i + |w|])
    ensures Words(line, i) == [w] + Words(line, i + |w|)
  {
    var stop := i + |w|;
    forall k | i <= k < stop ensures !IsSpace(line[k]) {
      assert line[k] == line[i..stop][k - i];
    }
    assert SkipWhile(line, i, true) == i;
    assert SkipWhile(line, i, false) == stop;
  }

  lemma {:induction false} NoMoreWords(line: Bytes)
    ensures Words(line, |line|) == []
  {}

  lemma {:induction false} SpreadStarts(words: Args, gaps: seq<Bytes>)
    requires Apart(words, gaps) && words != [] && Spread(words[1..], gaps[1..]) != []
    ensures IsSpace(Spread(words[1..], gaps[1..])[0])
  {
    var more := gaps[1..];
    assert more[0] == gaps[1];
  }

  lemma {:induction false} WordsOfSpread(line: Bytes, i: nat, words: Args, gaps: seq<Bytes>)
    requires Apart(words, gaps)
    requires i + |Spread(words, gaps)| == |line| && At(line, i, Spread(words, gaps))
    ensures Words(line, i) == words
    decreases |words|
  {
    hide Words;
    hide Word;
    hide Blank;
    if words == [] {
      SkipBlank(line, i, gaps[0]);
      NoMoreWords(line);
    } else {
      var rest := Spread(words[1..], gaps[1..]);
      AtParts(line, i, gaps[0], words[0] + rest);
      SkipBlank(line, i, gaps[0]);
      var at := i + |gaps[0]|;
      AtParts(line, at, words[0], rest);
      var stop := at + |words[0]|;
      if stop < |line| {
        SpreadStarts(words, gaps);
        assert line[stop] == line[stop..stop + |rest|][0] == rest[0];
      }
      WordAt(line, at, words[0]);
      WordsOfSpread(line, stop, words[1..], gaps[1..]);
      assert words == [words[0]] + words[1..];
    }
  }

  lemma {:induction false} SkipOne(line: Bytes, i: nat)
    requires i < |line| && IsSpace(line[i])
    ensures Words(line, i) == Words(line, i + 1)
  {
    assert SkipWhile(line, i, true) == SkipWhile(line, i + 1, true);
  }

  /** Words typed on one line, however spaced, come back as the arguments, provided
      the line is within the inline limit and is not a multibulk header. */
  lemma {:induction false} InlineParses(words: Args, gaps: seq<Bytes>, rest: Bytes)
    requires Apart(words, gaps)
    requires var line := Spread(words, gaps);
             && |line| <= MAX_INLINE && (line != [] ==> line[0] != STAR)
             && FindCrlf(line + CRLF, 0) == Some(|line|)
    ensures var line := Spread(words, gaps);
            Parse(line + CRLF + rest) == Ok(words, |line| + 2)
  {
    hide FindCrlf;
    hide Words;
    hide Word;
    hide Blank;
    var line := Spread(words, gaps);
    var input := line + CRLF + rest;
    assert input[..|line| + 2] == line + CRLF == (line + CRLF)[..|line| + 2];
    FindCrlfAgrees(line + CRLF, input, |line| + 2, 0);
    assert input[..|line|] == line == line[0..|line|];
    WordsOfSpread(line, 0, words, gaps);
  }

  // ------------------------------------------------------------------
  // Every parsed request keeps the limits
  // ------------------------------------------------------------------

  lemma {:induction false} WordsWithinLine(line: Bytes, i: nat)
    requires i <= |line|
    ensures |Words(line, i)| <= |line| - i
    ensures forall k :: 0 <= k < |Words(line, i)| ==> |Words(line, i)[k]| <= |line|
    decreases |line| - i
  {
    var start := SkipWhile(line, i, true);
    var stop := SkipWhile(line, start, false);
    if stop != start {
      WordsWithinLine(line, stop);
    }
  }

  lemma {:induction false} BulkWithinLimit(input: Bytes, pos: nat)
    requires ParseBulk(input, pos).Ok?
    ensures |ParseBulk(input, pos).args[0]| <= MAX_BULK
  {}

  lemma {:induction false} BulksWithinLimits(input: Bytes, pos: nat, count: nat)
    requires ParseBulks(input, pos, count).Ok?
    ensures |ParseBulks(input, pos, count).args| == count
    ensures ShortEnough(ParseBulks(input, pos, count).args)
    decreases count
  {
    hide ParseBulk;
    if count > 0 {
      BulkWithinLimit(input, pos);
      BulksWithinLimits(input, ParseBulk(input, pos).consumed, count - 1);
    }
  }

  /** Whatever is parsed can be encoded again, and parses as itself. */
  lemma {:induction false} ParsedWithinLimits(input: Bytes)
    requires Parse(input).Ok?
    ensures WithinLimits(Parse(input).args)
  {
    hide ParseBulk;
    hide FindCrlf;
    hide ParseInt;
    if input[0] != STAR {
      WordsWithinLine(input[..FindCrlf(input, 0).value], 0);
    } else {
      var headerEnd := FindCrlf(input, 0).value;
      var argc := ParseInt(input[1..headerEnd]).value;
      if argc > 0 {
        BulksWithinLimits(input, headerEnd + 2, argc);
      }
    }
  }

  // ------------------------------------------------------------------
  // What parses is what the grammar says
  // ------------------------------------------------------------------

  /** A header line: a mark and the text of a number. */
  function NumberLine(mark: byte, text: Bytes): Bytes { [mark] + text + CRLF }

  /** A bulk string, its length written as `text`. */
  function BulkForm(text: Bytes, s: Bytes): Bytes { NumberLine(DOLLAR, text) + (s + CRLF) }

  function BulkForms(texts: seq<Bytes>, args: Args): Bytes
    requires |texts| == |args|
  {
    if args == [] then [] else BulkForm(texts[0], args[0]) + BulkForms(texts[1..], args[1..])
  }

  /** The texts say how long the arguments are, in any way a number can be written. */
  predicate Measures(texts: seq<Bytes>, args: Args)
  {
    |texts| == |args| && forall i :: 0 <= i < |args| ==> ParseInt(texts[i]) == Some(|args[i]|)
  }

  lemma {:induction false} NumbersHaveNoCr(text: Bytes)
    requires ParseInt(text).Some?
    ensures forall i :: 0 <= i < |text| ==> text[i] != CR
  {
    forall i | 0 <= i < |text| ensures text[i] != CR {
      if i > 0 {
        assert text[i] == text[1..][i - 1];
      }
    }
  }

  lemma {:induction false} BulkIsForm(input: Bytes, pos: nat) returns (text: Bytes)
    requires ParseBulk(input, pos).Ok?
    ensures var s := ParseBulk(input, pos).args[0];
            && ParseInt(text) == Some(|s|) && At(input, pos, BulkForm(text, s))
            && ParseBulk(input, pos).consumed == pos + |BulkForm(text, s)|
  {
    hide FindCrlf;
    hide ParseInt;
    var end := FindCrlf(input, pos).value;
    text := input[pos + 1..end];
    var s := ParseBulk(input, pos).args[0];
    var body := end + 2;
    assert input[pos..end] == [DOLLAR] + text;
    assert input[end..body] == CRLF;
    assert input[pos..body] == NumberLine(DOLLAR, text);
    assert At(input, body, s) && At(input, body + |s|, CRLF);
    AtJoin(input, body, s, CRLF);
    AtJoin(input, pos, NumberLine(DOLLAR, text), s + CRLF);
  }

  lemma {:induction false} BulksAreForms(input: Bytes, pos: nat, count: nat) returns (texts: seq<Bytes>)
    requires pos <= |input| && ParseBulks(input, pos, count).Ok?
    ensures var args := ParseBulks(input, pos, count).args;
            && |args| == count && Measures(texts, args) && At(input, pos, BulkForms(texts, args))
            && ParseBulks(input, pos, count).consumed == pos + |BulkForms(texts, args)|
    decreases count
  {
    hide ParseBulk;
    hide ParseInt;
    hide BulkForm;
    if count == 0 {
      texts := [];
      assert At(input, pos, []);
    } else {
      var text := BulkIsForm(input, pos);
      var first := ParseBulk(input, pos);
      var more := BulksAreForms(input, first.consumed, count - 1);
      texts := [text] + more;
      var rest := ParseBulks(input, first.consumed, count - 1);
      var args := ParseBulks(input, pos, count).args;
      assert args[1..] == rest.args && args[0] == first.args[0] && texts[1..] == more;
      AtJoin(input, pos, BulkForm(text, args[0]), BulkForms(more, rest.args));
    }
  }

  /** Soundness: a multibulk request that parses is a count, and for each argument its
      length and itself, every part with its line end. */
  lemma {:induction false} ParsedIsWellFormed(input: Bytes) returns (count: Bytes, texts: seq<Bytes>)
    requires Parse(input).Ok? && input[0] == STAR && Parse(input).args != []
    ensures var Ok(args, consumed) := Parse(input);
            && consumed <= |input| && Measures(texts, args) && ParseInt(count) == Some(|args|)
            && input[..consumed] == NumberLine(STAR, count) + BulkForms(texts, args)
  {
    hide FindCrlf;
    hide ParseInt;
    hide ParseBulks;
    hide BulkForms;
    ConsumedWithinInput(input);
    var end := FindCrlf(input, 0).value;
    count := input[1..end];
    var n := ParseInt(count).value;
    texts := BulksAreForms(input, end + 2, n);
    assert input[..end] == [STAR] + count && input[end..end + 2] == CRLF;
    assert input[..end + 2] == NumberLine(STAR, count);
    var forms := BulkForms(texts, Parse(input).args);
    assert input[..end + 2 + |forms|] == input[..end + 2] + input[end + 2..end + 2 + |forms|];
  }

  /** A number line is read off the front, whatever follows. */
  lemma {:induction false} NumberLineReads(input: Bytes, pos: nat, mark: byte, text: Bytes)
    requires mark != CR && ParseInt(text).Some? && At(input, pos, NumberLine(mark, text))
    ensures var end := pos + 1 + |text|;
            FindCrlf(input, pos) == Some(end) && input[pos] == mark && input[pos + 1..end] == text
  {
    hide ParseInt;
    hide FindCrlf;
    var line := NumberLine(mark, text);
    var end := pos + 1 + |text|;
    NumbersHaveNoCr(text);
    AtParts(input, pos, [mark], text + CRLF) by { assert line == [mark] + (text + CRLF); }
    AtParts(input, pos + 1, text, CRLF);
    AtIndex(input, pos, [mark], 0);
    AtIndex(input, end, CRLF, 0);
    AtIndex(input, end, CRLF, 1);
    forall i | pos <= i < end ensures input[i] != CR {
      if i > pos {
        AtIndex(input, pos + 1, text, i - pos - 1);
      }
    }
    FindCrlfIs(input, pos, end);
  }

  lemma {:induction false} FormParses(input: Bytes, pos: nat, text: Bytes, s: Bytes)
    requires ParseInt(text) == Some(|s|) && |s| <= MAX_BULK && At(input, pos, BulkForm(text, s))
    ensures ParseBulk(input, pos) == Ok([s], pos + |BulkForm(text, s)|)
  {
    hide FindCrlf;
    hide ParseInt;
    AtParts(input, pos, NumberLine(DOLLAR, text), s + CRLF);
    NumberLineReads(input, pos, DOLLAR, text);
    var body := pos + |NumberLine(DOLLAR, text)|;
    AtParts(input, body, s, CRLF);
  }

  lemma {:induction false} FormsParse(input: Bytes, pos: nat, texts: seq<Bytes>, args: Args)
    requires Measures(texts, args) && ShortEnough(args) && At(input, pos, BulkForms(texts, args))
    ensures ParseBulks(input, pos, |args|) == Ok(args, pos + |BulkForms(texts, args)|)
    decreases |args|
  {
    hide ParseBulk;
    hide ParseInt;
    hide BulkForm;
    hide At;
    if args != [] {
      AtParts(input, pos, BulkForm(texts[0], args[0]), BulkForms(texts[1..], args[1..]));
      FormParses(input, pos, texts[0], args[0]);
      FormsParse(input, pos + |BulkForm(texts[0], args[0])|, texts[1..], args[1..]);
      assert args == [args[0]] + args[1..];
    }
  }

  /** Completeness: every such request within the limits parses, followed by anything,
      however its numbers are written. */
  lemma {:induction false} WellFormedParses(count: Bytes, texts: seq<Bytes>, args: Args, rest: Bytes)
    requires args != [] && WithinLimits(args) && ParseInt(count) == Some(|args|) && Measures(texts, args)
    ensures var request := NumberLine(STAR, count) + BulkForms(texts, args);
            Parse(request + rest) == Ok(args, |request|)
  {
    hide FindCrlf;
    hide ParseInt;
    hide ParseBulks;
    hide BulkForms;
    var line, forms := NumberLine(STAR, count), BulkForms(texts, args);
    var input := line + forms + rest;
    assert input[0..|line + forms|] == line + forms;
    AtParts(input, 0, line, forms);
    NumberLineReads(input, 0, STAR, count);
    FormsParse(input, |line|, texts, args);
  }

  /** A count of zero or less is a request for nothing, whatever the text of it. */
  lemma {:induction false} NothingAskedFor(count: Bytes, rest: Bytes)
    requires ParseInt(count).Some? && ParseInt(count).value <= 0
    ensures Parse(NumberLine(STAR, count) + rest) == Ok([], |NumberLine(STAR, count)|)
  {
    hide FindCrlf;
    hide ParseInt;
    var line := NumberLine(STAR, count);
    var input := line + rest;
    assert input[0..|line|] == line;
    NumberLineReads(input, 0, STAR, count);
  }

  /** A count that is no number, or above a million and some, is refused as soon as its
      line is there. */
  lemma {:induction false} BadCountRefused(text: Bytes, rest: Bytes)
    requires forall i :: 0 <= i < |text| ==> text[i] != CR
    requires ParseInt(text).None? || ParseInt(text).value > 1_048_576
    ensures Parse(NumberLine(STAR, text) + rest) == Error(InvalidMultibulkLength)
  {
    hide ParseInt;
    hide FindCrlf;
    var line := NumberLine(STAR, text);
    var input := line + rest;
    var end := 1 + |text|;
    assert input[0] == STAR && input[1..end] == text && input[end] == CR && input[end + 1] == LF;
    forall i | 0 <= i < end ensures input[i] != CR {
      assert input[i] == line[i];
    }
    FindCrlfIs(input, 0, end);
  }

  /** Something other than a bulk string where one belongs is refused on its first byte. */
  lemma {:induction false} DollarExpected(count: Bytes, first: byte, rest: Bytes)
    requires ParseInt(count).Some? && 0 < ParseInt(count).value <= 1_048_576 && first != DOLLAR
    ensures Parse(NumberLine(STAR, count) + [first] + rest) == Error(ExpectedDollar(first))
  {
    hide ParseInt;
    hide FindCrlf;
    var line := NumberLine(STAR, count);
    var input := line + [first] + rest;
    assert input[0..|line|] == line;
    NumberLineReads(input, 0, STAR, count);
  }

  /** Without an end of line more is awaited, up to 64 bytes of a count and 64 KiB of an
      inline command. */
  lemma {:induction false} AwaitsLine(input: Bytes)
    requires input != [] && forall i :: 0 <= i < |input| ==> input[i] != CR
    ensures input[0] == STAR ==> Parse(input) == if |input| <= 64 then Incomplete else Error(TooBigMultibulkCount)
    ensures input[0] != STAR ==> Parse(input) == if |input| <= 65_536 then Incomplete else Error(TooBigInline)
  {
    hide FindCrlf;
    NoCrNoCrlf(input, 0);
  }

  lemma {:induction false} NoCrNoCrlf(input: Bytes, i: nat)
    requires forall j :: 0 <= j < |input| ==> input[j] != CR
    ensures FindCrlf(input, i).None?
    decreases |input| - i
  {
    if i < |input| {
      NoCrNoCrlf(input, i + 1);
    }
  }

  /** A bulk string of a negative length, of one above 512 MiB, or of a length that is no
      number, is refused as soon as its line is there. */
  lemma {:induction false} BadLengthRefused(count: Bytes, text: Bytes, rest: Bytes)
    requires ParseInt(count).Some? && 0 < ParseInt(count).value <= 1_048_576
    requires forall i :: 0 <= i < |text| ==> text[i] != CR
    requires ParseInt(text).None? || ParseInt(text).value < 0 || ParseInt(text).value > 536_870_912
    ensures Parse(NumberLine(STAR, count) + NumberLine(DOLLAR, text) + rest) == Error(InvalidBulkLength)
  {
    hide ParseInt;
    hide FindCrlf;
    var first, second := NumberLine(STAR, count), NumberLine(DOLLAR, text);
    var input := first + second + rest;
    assert input[0..|first|] == first;
    NumberLineReads(input, 0, STAR, count);
    var pos := |first|;
    var end := pos + 1 + |text|;
    assert input[pos] == DOLLAR && input[pos + 1..end] == text;
    assert input[end] == CR && input[end + 1] == 10;
    forall i | pos <= i < end ensures input[i] != CR {
      assert input[i] == second[i - pos];
    }
    FindCrlfIs(input, pos, end);
  }

  /** Soundness of inline requests: the line is the arguments with white space around. */
  lemma {:induction false} InlineIsSpread(input: Bytes) returns (gaps: seq<Bytes>)
    requires Parse(input).Ok? && input[0] != STAR
    ensures var Ok(args, consumed) := Parse(input);
            && consumed <= |input| && Apart(args, gaps) && input[..consumed] == Spread(args, gaps) + CRLF
  {
    hide FindCrlf;
    hide Words;
    hide Spread;
    hide Apart;
    ConsumedWithinInput(input);
    var end := FindCrlf(input, 0).value;
    var line := input[..end];
    gaps := LineIsSpread(line, 0);
    assert line[0..] == line;
    assert input[..end + 2] == line + CRLF;
    ApartFits(Parse(input).args, gaps);
  }

  lemma {:induction false} ApartFits(words: Args, gaps: seq<Bytes>)
    requires Apart(words, gaps)
    ensures |gaps| == |words| + 1
  {}

  lemma {:induction false} OneMoreWord(gap: Bytes, word: Bytes, words: Args, gaps: seq<Bytes>)
    requires Blank(gap) && Word(word) && Apart(words, gaps) && (words != [] ==> gaps[0] != [])
    ensures Apart([word] + words, [gap] + gaps)
    ensures Spread([word] + words, [gap] + gaps) == gap + (word + Spread(words, gaps))
  {
    hide Blank;
    hide Word;
    var allWords, allGaps := [word] + words, [gap] + gaps;
    assert allWords[1..] == words && allGaps[1..] == gaps;
    forall k | 0 < k < |allWords| ensures allGaps[k] != [] {
      assert allGaps[k] == gaps[k - 1];
    }
  }

  /** One word and the white space before it, off the front of a line. */
  lemma {:induction false} NextWord(line: Bytes, i: nat, start: nat, stop: nat)
    requires i <= |line| && start == SkipWhile(line, i, true) && stop == SkipWhile(line, start, false)
    ensures Blank(line[i..start])
    ensures if start == stop then Words(line, i) == [] && start == |line|
            else Word(line[start..stop]) && Words(line, i) == [line[start..stop]] + Words(line, stop)
    ensures stop < |line| && start != stop ==> IsSpace(line[stop])
    ensures i < |line| && IsSpace(line[i]) ==> start > i
  {}

  lemma {:induction false} LineIsSpread(line: Bytes, i: nat) returns (gaps: seq<Bytes>)
    requires i <= |line|
    ensures Apart(Words(line, i), gaps) && gaps != [] && line[i..] == Spread(Words(line, i), gaps)
    ensures i < |line| && IsSpace(line[i]) ==> gaps[0] != []
    decreases |line| - i
  {
    hide Words;
    hide Word;
    hide Blank;
    hide Apart;
    hide Spread;
    hide IsSpace;
    var start := SkipWhile(line, i, true);
    var stop := SkipWhile(line, start, false);
    NextWord(line, i, start, stop);
    if stop == start {
      gaps := [line[i..]];
      assert line[i..start] == line[i..];
      OnlyBlank(line[i..]);
    } else {
      var more := LineIsSpread(line, stop);
      gaps := [line[i..start]] + more;
      if stop == |line| {
        NoMoreWords(line);
      }
      OneMoreWord(line[i..start], line[start..stop], Words(line, stop), more);
      InPieces(line, i, start, stop);
    }
  }

  lemma {:induction false} InPieces(line: Bytes, i: nat, start: nat, stop: nat)
    requires i <= start <= stop <= |line|
    ensures line[i..] == line[i..start] + (line[start..stop] + line[stop..])
  {
    assert line[start..] == line[start..stop] + line[stop..];
  }

  lemma {:induction false} OnlyBlank(gap: Bytes)
    requires Blank(gap)
    ensures Apart([], [gap]) && Spread([], [gap]) == gap
  {}
}
