/** The snapshot format: writer, reader, and what the two promise each other.
    Every snapshot reads back as the records it was made from, no proper prefix
    of one is accepted, and a change within eight bytes is noticed. */
module Rdb {
  import opened ByteStrings
  import opened Keyspace
  import opened Crc64

  const MAGIC: Bytes := Ascii("REDIS")
  const VERSION: Bytes := Ascii("0011")
  const HEADER: nat := 9

  const OP_AUX: byte := 0xFA
  const OP_RESIZE_DB: byte := 0xFB
  const OP_EXPIRE_MS: byte := 0xFC
  const OP_EXPIRE_SEC: byte := 0xFD
  const OP_SELECT_DB: byte := 0xFE
  const OP_EOF: byte := 0xFF
  const TYPE_STRING: byte := 0x00

  const TWO_64: int := 0x1_0000_0000_0000_0000

  // ------------------------------------------------------------------
  // Fixed-width integers
  // ------------------------------------------------------------------

  function Power256(k: nat): (p: nat)
    ensures p >= 1
  {
    if k == 0 then 1 else 256 * Power256(k - 1)
  }

  lemma {:induction false} Powers()
    ensures Power256(4) == 0x1_0000_0000 && Power256(8) == TWO_64
  {
    assert Power256(2) == 0x1_0000;
    assert Power256(6) == 0x1_0000_0000_0000;
  }

  function LittleEndian(n: nat, k: nat): (r: Bytes)
    ensures |r| == k
    decreases k
  {
    if k == 0 then [] else [(n % 256) as byte] + LittleEndian(n / 256, k - 1)
  }

  function FromLittle(s: Bytes): nat
  {
    if s == [] then 0 else s[0] as int + 256 * FromLittle(s[1..])
  }

  lemma {:induction false} LittleReads(n: nat, k: nat)
    requires n < Power256(k)
    ensures FromLittle(LittleEndian(n, k)) == n
    decreases k
  {
    if k > 0 {
      LittleReads(n / 256, k - 1);
    }
  }

  lemma {:induction false} LittleInjective(a: Bytes, b: Bytes)
    requires |a| == |b| && FromLittle(a) == FromLittle(b)
    ensures a == b
  {
    if a != [] {
      LittleInjective(a[1..], b[1..]);
      assert a == [a[0]] + a[1..] && b == [b[0]] + b[1..];
    }
  }

  function BigEndian(n: nat, k: nat): (r: Bytes)
    ensures |r| == k
    decreases k
  {
    if k == 0 then [] else BigEndian(n / 256, k - 1) + [(n % 256) as byte]
  }

  function FromBig(s: Bytes): nat
  {
    if s == [] then 0 else FromBig(s[..|s| - 1]) * 256 + s[|s| - 1] as int
  }

  lemma {:induction false} BigReads(n: nat, k: nat)
    requires n < Power256(k)
    ensures FromBig(BigEndian(n, k)) == n
    decreases k
  {
    if k > 0 {
      BigReads(n / 256, k - 1);
      assert BigEndian(n, k)[..k - 1] == BigEndian(n / 256, k - 1);
    }
  }

  function ToUnsigned(n: int): nat
    requires FitsInt64(n)
  {
    if n < 0 then n + TWO_64 else n
  }

  /** The two's complement reading of an unsigned number of `width` bytes. */
  function ToSigned(n: nat, width: nat): int
  {
    if 2 * n < Power256(width) then n else n - Power256(width)
  }

  // ------------------------------------------------------------------
  // The writer
  // ------------------------------------------------------------------

  function PutLength(n: nat): (r: Bytes)
    ensures r != []
  {
    if n < 64 then [n as byte]
    else if n < 16384 then [(64 + n / 256) as byte, (n % 256) as byte]
    else if n <= 0xFFFF_FFFF then [0x80] + BigEndian(n, 4)
    else [0x81] + BigEndian(n, 8)
  }

  function PutString(s: Bytes): Bytes { PutLength(|s|) + s }

  /** The operations a snapshot is made of. */
  datatype Op =
    | Aux(name: Bytes, text: Bytes)
    | SelectDb(index: nat)
    | ResizeDb(keys: nat, expiring: nat)
    | ExpireMs(at: int)
    | KeyValue(key: Bytes, value: Bytes)

  predicate Writable(op: Op)
  {
    match op
    case Aux(name, text) => |name| < TWO_64 && |text| < TWO_64
    case SelectDb(index) => index < TWO_64
    case ResizeDb(keys, expiring) => keys < TWO_64 && expiring < TWO_64
    case ExpireMs(at) => FitsInt64(at)
    case KeyValue(key, value) => |key| < TWO_64 && |value| < TWO_64
  }

  function Code(op: Op): byte
  {
    match op
    case Aux(_, _) => OP_AUX
    case SelectDb(_) => OP_SELECT_DB
    case ResizeDb(_, _) => OP_RESIZE_DB
    case ExpireMs(_) => OP_EXPIRE_MS
    case KeyValue(_, _) => TYPE_STRING
  }

  function Operands(op: Op): Bytes
    requires Writable(op)
  {
    match op
    case Aux(name, text) => PutString(name) + PutString(text)
    case SelectDb(index) => PutLength(index)
    case ResizeDb(keys, expiring) => PutLength(keys) + PutLength(expiring)
    case ExpireMs(at) => LittleEndian(ToUnsigned(at), 8)
    case KeyValue(key, value) => PutString(key) + PutString(value)
  }

  function PutOp(op: Op): Bytes
    requires Writable(op)
  {
    [Code(op)] + Operands(op)
  }

  predicate AllWritable(ops: seq<Op>) { forall i :: 0 <= i < |ops| ==> Writable(ops[i]) }

  function PutOps(ops: seq<Op>): Bytes
    requires AllWritable(ops)
  {
    if ops == [] then [] else PutOp(ops[0]) + PutOps(ops[1..])
  }

  function RecordOps(r: Record): seq<Op>
  {
    (if r.expireAt == NO_EXPIRY then [] else [ExpireMs(r.expireAt)]) + [KeyValue(r.key, r.value)]
  }

  function RecordsOps(records: seq<Record>): seq<Op>
  {
    if records == [] then [] else RecordOps(records[0]) + RecordsOps(records[1..])
  }

  function Expiring(records: seq<Record>): (n: nat)
    ensures n <= |records|
  {
    if records == [] then 0
    else
      var last := records[|records| - 1];
      Expiring(records[..|records| - 1]) + (if last.expireAt != NO_EXPIRY then 1 else 0)
  }

  function Preamble(records: seq<Record>): seq<Op>
  {
    [Aux(Ascii("redis-ver"), Ascii("7.0.0-rp")), SelectDb(0), ResizeDb(|records|, Expiring(records))]
  }

  function SnapshotOps(records: seq<Record>): seq<Op> { Preamble(records) + RecordsOps(records) }

  /** The sizes announced ahead of the records: how many there are, and how many of
      them have a deadline. */
  lemma {:induction false} AnnouncedSizes(records: seq<Record>)
    ensures SnapshotOps(records)[2] ==
            ResizeDb(|records|, |set i | 0 <= i < |records| && records[i].expireAt != NO_EXPIRY|)
  {
    hide Expiring;
    hide RecordsOps;
    ExpiringCounts(records);
  }

  lemma {:induction false} ExpiringCounts(records: seq<Record>)
    ensures Expiring(records) == |set i | 0 <= i < |records| && records[i].expireAt != NO_EXPIRY|
  {
    var all := set i | 0 <= i < |records| && records[i].expireAt != NO_EXPIRY;
    if records != [] {
      var n := |records| - 1;
      var front := records[..n];
      ExpiringCounts(front);
      var before := set i | 0 <= i < |front| && front[i].expireAt != NO_EXPIRY;
      assert all == before + if records[n].expireAt != NO_EXPIRY then {n} else {};
    }
  }

  /** Sizes and deadlines are those of size_t and int64. */
  predicate Saveable(records: seq<Record>)
  {
    && |records| < TWO_64
    && forall i :: 0 <= i < |records| ==>
         |records[i].key| < TWO_64 && |records[i].value| < TWO_64 && FitsInt64(records[i].expireAt)
  }

  lemma {:induction false} RecordsWritable(records: seq<Record>)
    requires forall i :: 0 <= i < |records| ==>
               |records[i].key| < TWO_64 && |records[i].value| < TWO_64 && FitsInt64(records[i].expireAt)
    ensures AllWritable(RecordsOps(records))
  {
    if records != [] {
      RecordsWritable(records[1..]);
    }
  }

  lemma {:induction false} SnapshotWritable(records: seq<Record>)
    requires Saveable(records)
    ensures AllWritable(SnapshotOps(records))
  {
    RecordsWritable(records);
  }

  /** Everything the checksum covers. */
  function Covered(records: seq<Record>): Bytes
    requires Saveable(records)
  {
    SnapshotWritable(records);
    MAGIC + VERSION + PutOps(SnapshotOps(records)) + [OP_EOF]
  }

  function Trailer(crc: Word): Bytes { LittleEndian(NatOf(crc), 8) }

  function Serialize(records: seq<Record>): Bytes
    requires Saveable(records)
  {
    Covered(records) + Trailer(Crc(ZERO, Covered(records)))
  }

  // ------------------------------------------------------------------
  // The reader
  // ------------------------------------------------------------------

  /** `LengthWraps` is where the model ends: the sum of position and claimed length
      leaves 64 bits, and the bounds check of the source lets it through. */
  datatype ReadError = Truncated | Compressed | UnknownEncoding(code: nat) | LengthWraps

  datatype Read<T> = Got(value: T, next: nat) | Fail(error: ReadError)

  datatype Length = Plain(n: nat) | Encoded(code: nat)

  function ReadFixed(data: Bytes, pos: nat, k: nat): (r: Read<Bytes>)
    ensures r.Got? ==> r.next == pos + k <= |data| && |r.value| == k
  {
    if pos + k <= |data| then Got(data[pos..pos + k], pos + k) else Fail(Truncated)
  }

  function ReadBig(data: Bytes, pos: nat, k: nat): (r: Read<Length>)
    ensures r.Got? ==> pos <= r.next <= |data|
  {
    var bytes := ReadFixed(data, pos, k);
    if bytes.Got? then Got(Plain(FromBig(bytes.value)), bytes.next) else Fail(bytes.error)
  }

  function ReadLength(data: Bytes, pos: nat): (r: Read<Length>)
    ensures r.Got? ==> pos < r.next <= |data|
  {
    if pos >= |data| then Fail(Truncated)
    else
      var first := data[pos] as int;
      if first < 0x40 then Got(Plain(first), pos + 1)
      else if first < 0x80 then
        if pos + 1 >= |data| then Fail(Truncated)
        else Got(Plain((first - 0x40) * 256 + data[pos + 1] as int), pos + 2)
      else if first >= 0xC0 then Got(Encoded(first - 0xC0), pos + 1)
      else if first == 0x80 then ReadBig(data, pos + 1, 4)
      else if first == 0x81 then ReadBig(data, pos + 1, 8)
      else Fail(Truncated)
  }

  function ReadInteger(data: Bytes, pos: nat, width: nat): (r: Read<Bytes>)
    ensures r.Got? ==> pos <= r.next <= |data|
  {
    var bytes := ReadFixed(data, pos, width);
    if bytes.Got? then Got(IntToString(ToSigned(FromLittle(bytes.value), width)), bytes.next)
    else Fail(bytes.error)
  }

  /** A string of a claimed length, which need not be there. */
  function ReadSized(data: Bytes, pos: nat, n: nat): (r: Read<Bytes>)
    ensures r.Got? ==> r.next == pos + n <= |data| && |r.value| == n
  {
    if pos + n <= |data| then Got(data[pos..pos + n], pos + n)
    else if pos + n < TWO_64 then Fail(Truncated)
    else Fail(LengthWraps)
  }

  function ReadString(data: Bytes, pos: nat): (r: Read<Bytes>)
    ensures r.Got? ==> pos < r.next <= |data|
  {
    var length := ReadLength(data, pos);
    if length.Fail? then Fail(length.error)
    else match length.value
      case Plain(n) => ReadSized(data, length.next, n)
      case Encoded(code) =>
        if code == 0 then ReadInteger(data, length.next, 1)
        else if code == 1 then ReadInteger(data, length.next, 2)
        else if code == 2 then ReadInteger(data, length.next, 4)
        else if code == 3 then Fail(Compressed)
        else Fail(UnknownEncoding(code))
  }

  /** What one step of the loop of rdb_parse makes of its input. */
  datatype Item = Skipped | Pending(at: int) | Pair(key: Bytes, value: Bytes) | Unsupported(code: byte)

  function ReadTwoStrings(data: Bytes, pos: nat): (r: Read<(Bytes, Bytes)>)
    ensures r.Got? ==> pos < r.next <= |data|
  {
    var first := ReadString(data, pos);
    if first.Fail? then Fail(first.error)
    else
      var second := ReadString(data, first.next);
      if second.Fail? then Fail(second.error) else Got((first.value, second.value), second.next)
  }

  function ReadItem(data: Bytes, pos: nat): (r: Read<Item>)
    requires pos < |data|
    ensures r.Got? ==> pos < r.next <= |data|
  {
    var code := data[pos];
    var at := pos + 1;
    if code == OP_AUX then
      var two := ReadTwoStrings(data, at);
      if two.Got? then Got(Skipped, two.next) else Fail(two.error)
    else if code == OP_SELECT_DB then
      var n := ReadLength(data, at);
      if n.Got? then Got(Skipped, n.next) else Fail(n.error)
    else if code == OP_RESIZE_DB then
      var n := ReadLength(data, at);
      if n.Fail? then Fail(n.error)
      else
        var m := ReadLength(data, n.next);
        if m.Got? then Got(Skipped, m.next) else Fail(m.error)
    else if code == OP_EXPIRE_MS then
      var ms := ReadFixed(data, at, 8);
      if ms.Got? then Got(Pending(ToSigned(FromLittle(ms.value), 8)), ms.next) else Fail(ms.error)
    else if code == OP_EXPIRE_SEC then
      var s := ReadFixed(data, at, 4);
      if s.Got? then Got(Pending(FromLittle(s.value) * 1000), s.next) else Fail(s.error)
    else if code == TYPE_STRING then
      var two := ReadTwoStrings(data, at);
      if two.Got? then Got(Pair(two.value.0, two.value.1), two.next) else Fail(two.error)
    else Got(Unsupported(code), at)
  }

  datatype RdbError =
    | TooShort | BadMagic | NewerVersion | NoEof | EofMissing | ChecksumMismatch
    | Malformed(why: ReadError)
    | UnsupportedOp(code: byte)

  /** The outcome of rdb_parse; a refusal also says what `out` was left holding.
      `Wrapped` says nothing about the source but that a claimed length wrapped. */
  datatype RdbResult = Parsed(records: seq<Record>) | Rejected(error: RdbError, out: seq<Record>) | Wrapped

  function Malformation(why: ReadError): RdbResult
  {
    if why.LengthWraps? then Wrapped else Rejected(Malformed(why), [])
  }

  function ParseItems(data: Bytes, pos: nat, pending: int, out: seq<Record>): RdbResult
    decreases |data| - pos
  {
    if pos >= |data| then Parsed(out)
    else
      var item := ReadItem(data, pos);
      if item.Fail? then Malformation(item.error)
      else match item.value
        case Skipped => ParseItems(data, item.next, pending, out)
        case Pending(at) => ParseItems(data, item.next, at, out)
        case Pair(key, value) =>
          ParseItems(data, item.next, NO_EXPIRY, out + [Record(key, value, pending)])
        case Unsupported(code) => Rejected(UnsupportedOp(code), out)
  }

  /** std::string comparison. */
  predicate Greater(a: Bytes, b: Bytes)
  {
    a != [] && (b == [] || a[0] > b[0] || (a[0] == b[0] && Greater(a[1..], b[1..])))
  }

  function StoredCrc(payload: Bytes): nat
    requires |payload| >= 8
  {
    FromLittle(payload[|payload| - 8..])
  }

  /** The checks rdb_parse makes before it interprets a single record. */
  function Refusal(payload: Bytes): Option<RdbError>
  {
    if |payload| < HEADER then Some(TooShort)
    else if payload[..5] != MAGIC then Some(BadMagic)
    else if Greater(payload[5..9], VERSION) then Some(NewerVersion)
    else if |payload| < HEADER + 9 then Some(NoEof)
    else
      var end := |payload| - 8;
      if payload[end - 1] != OP_EOF then Some(EofMissing)
      else if StoredCrc(payload) != 0 && NatOf(Crc(ZERO, payload[..end])) != StoredCrc(payload)
      then Some(ChecksumMismatch)
      else None
  }

  function Parse(payload: Bytes): RdbResult
  {
    match Refusal(payload)
    case Some(error) => Rejected(error, [])
    case None => ParseItems(payload[HEADER..|payload| - 9], 0, NO_EXPIRY, [])
  }

  // ------------------------------------------------------------------
  // Reading back what was written
  // ------------------------------------------------------------------

  lemma {:induction false} FixedReads(data: Bytes, pos: nat, x: Bytes)
    requires At(data, pos, x)
    ensures ReadFixed(data, pos, |x|) == Got(x, pos + |x|)
  {}

  lemma {:induction false} LengthReads(data: Bytes, pos: nat, n: nat)
    requires n < TWO_64 && At(data, pos, PutLength(n))
    ensures ReadLength(data, pos) == Got(Plain(n), pos + |PutLength(n)|)
  {
    var put := PutLength(n);
    assert data[pos] == data[pos..pos + |put|][0] == put[0];
    if 64 <= n < 16384 {
      assert data[pos + 1] == data[pos..pos + |put|][1];
    } else if n >= 16384 {
      Powers();
      var k := if n <= 0xFFFF_FFFF then 4 else 8;
      var mark: byte := if n <= 0xFFFF_FFFF then 0x80 else 0x81;
      assert put == [mark] + BigEndian(n, k);
      AtParts(data, pos, [mark], BigEndian(n, k));
      FixedReads(data, pos + 1, BigEndian(n, k));
      BigReads(n, k);
    }
  }

  lemma {:induction false} StringReads(data: Bytes, pos: nat, s: Bytes)
    requires |s| < TWO_64 && At(data, pos, PutString(s))
    ensures ReadString(data, pos) == Got(s, pos + |PutString(s)|)
  {
    hide ReadLength;
    hide PutLength;
    AtParts(data, pos, PutLength(|s|), s);
    LengthReads(data, pos, |s|);
    FixedReads(data, pos + |PutLength(|s|)|, s);
  }

  lemma {:induction false} TwoStringsRead(data: Bytes, pos: nat, a: Bytes, b: Bytes)
    requires |a| < TWO_64 && |b| < TWO_64 && At(data, pos, PutString(a) + PutString(b))
    ensures ReadTwoStrings(data, pos) == Got((a, b), pos + |PutString(a) + PutString(b)|)
  {
    hide ReadString;
    hide PutString;
    AtParts(data, pos, PutString(a), PutString(b));
    StringReads(data, pos, a);
    StringReads(data, pos + |PutString(a)|, b);
  }

  lemma {:induction false} DeadlineReads(at: int)
    requires FitsInt64(at)
    ensures ToSigned(FromLittle(LittleEndian(ToUnsigned(at), 8)), 8) == at
  {
    Powers();
    LittleReads(ToUnsigned(at), 8);
  }

  function ItemOf(op: Op): Item
  {
    match op
    case ExpireMs(at) => Pending(at)
    case KeyValue(key, value) => Pair(key, value)
    case _ => Skipped
  }

  lemma {:induction false} OpReads(data: Bytes, pos: nat, op: Op)
    requires Writable(op) && At(data, pos, PutOp(op))
    ensures pos < |data| && data[pos] == Code(op)
    ensures ReadItem(data, pos) == Got(ItemOf(op), pos + |PutOp(op)|)
  {
    hide ReadTwoStrings;
    hide ReadLength;
    hide PutString;
    hide PutLength;
    hide At;
    hide ToSigned;
    hide LittleEndian;
    AtParts(data, pos, [Code(op)], Operands(op));
    AtByte(data, pos, Code(op));
    match op
    case Aux(name, text) => TwoStringsRead(data, pos + 1, name, text);
    case SelectDb(index) => LengthReads(data, pos + 1, index);
    case ResizeDb(keys, expiring) =>
      AtParts(data, pos + 1, PutLength(keys), PutLength(expiring));
      LengthReads(data, pos + 1, keys);
      LengthReads(data, pos + 1 + |PutLength(keys)|, expiring);
    case ExpireMs(at) =>
      FixedReads(data, pos + 1, LittleEndian(ToUnsigned(at), 8));
      DeadlineReads(at);
    case KeyValue(key, value) => TwoStringsRead(data, pos + 1, key, value);
  }

  lemma {:induction false} AtByte(data: Bytes, pos: nat, b: byte)
    requires At(data, pos, [b])
    ensures pos < |data| && data[pos] == b
  {
    assert data[pos] == data[pos..pos + 1][0];
  }

  // ------------------------------------------------------------------
  // Reading what was cut short
  // ------------------------------------------------------------------

  lemma {:induction false} FixedCut(data: Bytes, pos: nat, x: Bytes)
    requires CutAt(data, pos, x)
    ensures ReadFixed(data, pos, |x|) == Fail(Truncated)
  {}

  lemma {:induction false} LengthCut(data: Bytes, pos: nat, n: nat)
    requires n < TWO_64 && CutAt(data, pos, PutLength(n))
    ensures ReadLength(data, pos) == Fail(Truncated)
  {
    if pos < |data| {
      var put := PutLength(n);
      assert data[pos] == data[pos..][0] == put[0];
      if n >= 16384 {
        var k := if n <= 0xFFFF_FFFF then 4 else 8;
        var mark: byte := if n <= 0xFFFF_FFFF then 0x80 else 0x81;
        CutParts(data, pos, [mark], BigEndian(n, k));
        FixedCut(data, pos + 1, BigEndian(n, k));
      }
    }
  }

  /** What came of reading something that was to end at `end`, but is cut: a failure,
      and a plain one unless the whole would not have fitted 64 bits. */
  predicate CutShort<T>(r: Read<T>, end: nat)
  {
    r.Fail? && (end < TWO_64 ==> !r.error.LengthWraps?)
  }

  lemma {:induction false} StringCut(data: Bytes, pos: nat, s: Bytes)
    requires |s| < TWO_64 && CutAt(data, pos, PutString(s))
    ensures CutShort(ReadString(data, pos), pos + |PutString(s)|)
  {
    hide ReadLength;
    hide PutLength;
    CutParts(data, pos, PutLength(|s|), s);
    if CutAt(data, pos, PutLength(|s|)) {
      LengthCut(data, pos, |s|);
    } else {
      LengthReads(data, pos, |s|);
    }
  }

  lemma {:induction false} TwoStringsCut(data: Bytes, pos: nat, a: Bytes, b: Bytes)
    requires |a| < TWO_64 && |b| < TWO_64 && CutAt(data, pos, PutString(a) + PutString(b))
    ensures CutShort(ReadTwoStrings(data, pos), pos + |PutString(a) + PutString(b)|)
  {
    hide ReadString;
    hide PutString;
    CutParts(data, pos, PutString(a), PutString(b));
    if CutAt(data, pos, PutString(a)) {
      StringCut(data, pos, a);
    } else {
      StringReads(data, pos, a);
      StringCut(data, pos + |PutString(a)|, b);
    }
  }

  lemma {:induction false} TwoLengthsCut(data: Bytes, pos: nat, a: nat, b: nat)
    requires a < TWO_64 && b < TWO_64 && CutAt(data, pos, PutLength(a) + PutLength(b))
    ensures var n := ReadLength(data, pos);
            n == Fail(Truncated) || (n.Got? && ReadLength(data, n.next) == Fail(Truncated))
  {
    hide ReadLength;
    hide PutLength;
    CutParts(data, pos, PutLength(a), PutLength(b));
    if CutAt(data, pos, PutLength(a)) {
      LengthCut(data, pos, a);
    } else {
      LengthReads(data, pos, a);
      LengthCut(data, pos + |PutLength(a)|, b);
    }
  }

  /** An operation of which only part arrived is refused, not misread. */
  lemma {:induction false} OpCut(data: Bytes, pos: nat, op: Op)
    requires Writable(op) && CutAt(data, pos, PutOp(op)) && pos < |data|
    ensures CutShort(ReadItem(data, pos), pos + |PutOp(op)|)
  {
    hide ReadTwoStrings;
    hide ReadLength;
    hide PutString;
    hide PutLength;
    hide LittleEndian;
    assert data[pos] == data[pos..][0] == Code(op);
    CutParts(data, pos, [Code(op)], Operands(op));
    assert CutAt(data, pos + 1, Operands(op));
    match op
    case Aux(name, text) => TwoStringsCut(data, pos + 1, name, text);
    case SelectDb(index) => LengthCut(data, pos + 1, index);
    case ResizeDb(keys, expiring) => TwoLengthsCut(data, pos + 1, keys, expiring);
    case ExpireMs(at) => FixedCut(data, pos + 1, LittleEndian(ToUnsigned(at), 8));
    case KeyValue(key, value) => TwoStringsCut(data, pos + 1, key, value);
  }

  // ------------------------------------------------------------------
  // Whole snapshots
  // ------------------------------------------------------------------

  /** The records a sequence of operations stands for. */
  function Interpret(ops: seq<Op>, pending: int, out: seq<Record>): seq<Record>
    decreases |ops|
  {
    if ops == [] then out
    else match ops[0]
      case ExpireMs(at) => Interpret(ops[1..], at, out)
      case KeyValue(key, value) => Interpret(ops[1..], NO_EXPIRY, out + [Record(key, value, pending)])
      case _ => Interpret(ops[1..], pending, out)
  }

  lemma {:induction false} OpsParse(data: Bytes, pos: nat, ops: seq<Op>, pending: int, out: seq<Record>)
    requires AllWritable(ops) && At(data, pos, PutOps(ops)) && pos + |PutOps(ops)| == |data|
    ensures ParseItems(data, pos, pending, out) == Parsed(Interpret(ops, pending, out))
    decreases |ops|
  {
    hide ReadItem;
    hide PutOp;
    hide At;
    if ops != [] {
      AtParts(data, pos, PutOp(ops[0]), PutOps(ops[1..]));
      OpReads(data, pos, ops[0]);
      var next := pos + |PutOp(ops[0])|;
      match ops[0]
      case ExpireMs(at) => OpsParse(data, next, ops[1..], at, out);
      case KeyValue(key, value) =>
        OpsParse(data, next, ops[1..], NO_EXPIRY, out + [Record(key, value, pending)]);
      case _ => OpsParse(data, next, ops[1..], pending, out);
    }
  }

  /** Operations cut short are refused, unless the cut falls between two of them;
      and then the next byte would have been an opcode, never the EOF mark. */
  lemma {:induction false} OpsCut(data: Bytes, pos: nat, ops: seq<Op>, pending: int, out: seq<Record>)
    requires AllWritable(ops) && CutAt(data, pos, PutOps(ops))
    ensures !ParseItems(data, pos, pending, out).Parsed? || PutOps(ops)[|data| - pos] != OP_EOF
    ensures pos + |PutOps(ops)| < TWO_64 ==> !ParseItems(data, pos, pending, out).Wrapped?
    decreases |ops|
  {
    hide ReadItem;
    hide PutOp;
    hide CutAt;
    hide At;
    CutBounds(data, pos, PutOps(ops));
    var first := PutOp(ops[0]);
    var rest := PutOps(ops[1..]);
    CutParts(data, pos, first, rest);
    if pos == |data| {
      FirstByte(ops[0]);
    } else if CutAt(data, pos, first) {
      OpCut(data, pos, ops[0]);
    } else {
      OpReads(data, pos, ops[0]);
      var next := pos + |first|;
      CutBounds(data, next, rest);
      assert PutOps(ops)[|data| - pos] == rest[|data| - next];
      match ops[0]
      case ExpireMs(at) => OpsCut(data, next, ops[1..], at, out);
      case KeyValue(key, value) =>
        OpsCut(data, next, ops[1..], NO_EXPIRY, out + [Record(key, value, pending)]);
      case _ => OpsCut(data, next, ops[1..], pending, out);
    }
  }

  lemma {:induction false} FirstByte(op: Op)
    requires Writable(op)
    ensures PutOp(op) != [] && PutOp(op)[0] == Code(op) != OP_EOF
  {}

  lemma {:induction false} CutBounds(data: Bytes, pos: nat, x: Bytes)
    requires CutAt(data, pos, x)
    ensures pos <= |data| < pos + |x|
  {}

  lemma {:induction false} InterpretRecords(records: seq<Record>, out: seq<Record>)
    ensures Interpret(RecordsOps(records), NO_EXPIRY, out) == out + records
    decreases |records|
  {
    if records != [] {
      var r := records[0];
      var ops := RecordsOps(records);
      var rest := RecordsOps(records[1..]);
      if r.expireAt == NO_EXPIRY {
        assert ops[1..] == rest;
      } else {
        assert ops[1..] == [KeyValue(r.key, r.value)] + rest;
        assert ops[1..][1..] == rest;
      }
      InterpretRecords(records[1..], out + [r]);
      assert out + records == (out + [r]) + records[1..];
    }
  }

  lemma {:induction false} InterpretSnapshot(records: seq<Record>)
    ensures Interpret(SnapshotOps(records), NO_EXPIRY, []) == records
  {
    var ops := SnapshotOps(records);
    var preamble := Preamble(records);
    assert ops[1..][1..][1..] == RecordsOps(records);
    assert ops[0] == preamble[0] && ops[1..][0] == preamble[1] && ops[1..][1..][0] == preamble[2];
    assert Interpret(ops, NO_EXPIRY, []) == Interpret(ops[1..], NO_EXPIRY, []);
    assert Interpret(ops[1..], NO_EXPIRY, []) == Interpret(ops[1..][1..], NO_EXPIRY, []);
    InterpretRecords(records, []);
    assert [] + records == records;
  }

  lemma {:induction false} NotGreaterThanItself(s: Bytes)
    ensures !Greater(s, s)
  {
    if s != [] {
      NotGreaterThanItself(s[1..]);
    }
  }

  lemma {:induction false} TrailerReads(crc: Word)
    ensures FromLittle(Trailer(crc)) == NatOf(crc)
  {
    BitsOfNatOf(crc);
    Powers();
    assert PowerOfTwo(64) == TWO_64 by { PowersAgree(); }
    LittleReads(NatOf(crc), 8);
  }

  lemma {:induction false} PowersAgree()
    ensures PowerOfTwo(64) == TWO_64
  {
    assert PowerOfTwo(8) == 256;
    assert PowerOfTwo(16) == 0x1_0000;
    assert PowerOfTwo(24) == 0x100_0000;
    assert PowerOfTwo(32) == 0x1_0000_0000;
    assert PowerOfTwo(40) == 0x100_0000_0000;
    assert PowerOfTwo(48) == 0x1_0000_0000_0000;
    assert PowerOfTwo(56) == 0x100_0000_0000_0000;
  }

  /** A snapshot as its parts. */
  lemma {:induction false} SnapshotShape(records: seq<Record>)
    requires Saveable(records)
    ensures AllWritable(SnapshotOps(records))
    ensures var payload := Serialize(records);
            var body := PutOps(SnapshotOps(records));
            && |payload| == HEADER + |body| + 9
            && payload[..5] == MAGIC && payload[5..9] == VERSION
            && payload[HEADER..HEADER + |body|] == body
            && payload[HEADER + |body|] == OP_EOF
            && payload[..|payload| - 8] == Covered(records)
            && payload[|payload| - 8..] == Trailer(Crc(ZERO, Covered(records)))
  {
    hide Crc;
    hide PutOps;
    hide SnapshotOps;
    hide LittleEndian;
    SnapshotWritable(records);
  }

  /** Every snapshot reads back as exactly the records it was made from. */
  lemma {:induction false} RoundTrip(records: seq<Record>)
    requires Saveable(records)
    ensures Parse(Serialize(records)) == Parsed(records)
  {
    hide Crc;
    hide PutOps;
    hide SnapshotOps;
    hide Trailer;
    hide Covered;
    hide Serialize;
    hide ParseItems;
    hide Greater;
    SnapshotShape(records);
    var payload := Serialize(records);
    var body := PutOps(SnapshotOps(records));
    NotGreaterThanItself(VERSION);
    TrailerReads(Crc(ZERO, Covered(records)));
    var data := payload[HEADER..|payload| - 9];
    assert data == body == data[0..|body|];
    OpsParse(data, 0, SnapshotOps(records), NO_EXPIRY, []);
    InterpretSnapshot(records);
  }

  /** No proper prefix of a snapshot is accepted, whatever its last bytes are. */
  lemma {:induction false} NoPrefixAccepted(records: seq<Record>, n: nat)
    requires Saveable(records) && n < |Serialize(records)|
    ensures !Parse(Serialize(records)[..n]).Parsed?
    ensures |Serialize(records)| < TWO_64 ==> Parse(Serialize(records)[..n]).Rejected?
  {
    hide Crc;
    hide PutOps;
    hide SnapshotOps;
    hide Trailer;
    hide Covered;
    hide Serialize;
    hide ParseItems;
    hide Greater;
    SnapshotShape(records);
    var payload := Serialize(records);
    var body := PutOps(SnapshotOps(records));
    var prefix := payload[..n];
    if Refusal(prefix).None? {
      var data := prefix[HEADER..n - 9];
      assert data == body[..n - 18] by {
        assert data == payload[HEADER..n - 9];
        assert body[..n - 18] == payload[HEADER..HEADER + |body|][..n - 18];
      }
      assert data[0..] == data;
      OpsCut(data, 0, SnapshotOps(records), NO_EXPIRY, []);
      assert prefix[n - 9] == payload[HEADER..HEADER + |body|][n - 18];
    }
  }

  // ------------------------------------------------------------------
  // Where 64-bit sums and natural ones part
  // ------------------------------------------------------------------

  /** The bounds check of the source, on 64-bit sums, lets through exactly the lengths
      that are there and the lengths that wrap. */
  lemma {:induction false} BoundsCheckExactly(pos: nat, n: nat, size: nat)
    requires pos <= size < TWO_64 && n < TWO_64
    ensures (pos + n) % TWO_64 <= size <==> pos + n <= size || pos + n >= TWO_64
  {}

  /** A string that claims more than 64 bits leave room for ends the model. */
  lemma {:induction false} ClaimedLengthWraps(data: Bytes, pos: nat, n: nat)
    requires n < TWO_64 && At(data, pos, PutLength(n)) && |data| < TWO_64
    requires pos + |PutLength(n)| + n >= TWO_64
    ensures ReadString(data, pos) == Fail(LengthWraps)
  {
    hide PutLength;
    hide ReadLength;
    LengthReads(data, pos, n);
  }

  /** There is such a payload, and it passes every check made before the body. */
  lemma {:induction false} SomePayloadWraps()
    ensures Parse(MAGIC + VERSION + ([OP_AUX] + PutLength(TWO_64 - 1)) + [OP_EOF] + LittleEndian(0, 8)) == Wrapped
  {
    hide Crc;
    hide Greater;
    hide PutLength;
    hide LittleEndian;
    hide ReadString;
    var body := [OP_AUX] + PutLength(TWO_64 - 1);
    var payload := MAGIC + VERSION + body + [OP_EOF] + LittleEndian(0, 8);
    NotGreaterThanItself(VERSION);
    Powers();
    LittleReads(0, 8);
    assert payload[..5] == MAGIC && payload[5..9] == VERSION;
    assert payload[|payload| - 8..] == LittleEndian(0, 8);
    assert payload[HEADER..|payload| - 9] == body;
    assert body[1..] == PutLength(TWO_64 - 1);
    assert At(body, 1, PutLength(TWO_64 - 1));
    LongestLength();
    ClaimedLengthWraps(body, 1, TWO_64 - 1);
  }

  lemma {:induction false} LongestLength()
    ensures |PutLength(TWO_64 - 1)| == 9
  {
    hide BigEndian;
  }

  lemma {:induction false} SameNumberSameWord(a: Word, b: Word)
    requires NatOf(a) == NatOf(b)
    ensures a == b
  {
    BitsOfNatOf(a);
    BitsOfNatOf(b);
  }

  lemma {:induction false} InThree(s: Bytes, lo: nat, hi: nat, end: nat)
    requires lo <= hi <= end <= |s|
    ensures s[..end] == s[..lo] + s[lo..hi] + s[hi..][..end - hi]
    ensures s[hi..][..end - hi] == s[hi..end] && s[end..] == s[hi..][end - hi..]
    ensures s == s[..lo] + s[lo..hi] + s[hi..]
  {}

  /** A payload with a checksum is refused once anything before the checksum is
      changed, as long as the change stays within eight consecutive bytes. */
  lemma {:induction false} CorruptionRejected(p: Bytes, q: Bytes, lo: nat, hi: nat)
    requires Parse(p).Parsed? && StoredCrc(p) != 0
    requires lo <= hi <= lo + 8 && hi <= |p| - 8
    requires |q| == |p| && q != p && q[..lo] == p[..lo] && q[hi..] == p[hi..]
    ensures Parse(q).Rejected?
  {
    hide Crc;
    hide ParseItems;
    hide Greater;
    hide FromLittle;
    var end := |p| - 8;
    var head, tail := p[..lo], p[hi..end];
    InThree(p, lo, hi, end);
    InThree(q, lo, hi, end);
    BurstDetected(ZERO, head, p[lo..hi], q[lo..hi], tail);
    if NatOf(Crc(ZERO, p[..end])) == NatOf(Crc(ZERO, q[..end])) {
      SameNumberSameWord(Crc(ZERO, p[..end]), Crc(ZERO, q[..end]));
    }
  }
}
