/** The snapshot writer and reader as the server runs them: an output string that
    grows, and a reader that advances, fails once and stays failed. */
module RdbCodec {
  import opened ByteStrings
  import opened Keyspace
  import opened Crc64
  import opened Rdb

  // ------------------------------------------------------------------
  // Writing
  // ------------------------------------------------------------------

  /** n >> (8 * i). */
  function ShiftBytes(n: nat, i: nat): nat
  {
    if i == 0 then n else ShiftBytes(n, i - 1) / 256
  }

  lemma {:induction false} ShiftFirst(n: nat, i: nat)
    ensures ShiftBytes(n / 256, i) == ShiftBytes(n, i + 1)
    decreases i
  {
    if i > 0 {
      ShiftFirst(n, i - 1);
    }
  }

  method PutBig(out: Bytes, n: nat, k: nat) returns (out': Bytes)
    ensures out' == out + BigEndian(n, k)
  {
    out' := out;
    var i := k;
    while i > 0
      invariant 0 <= i <= k
      invariant out' == out + BigEndian(ShiftBytes(n, i), k - i)
    {
      i := i - 1;
      out' := out' + [(ShiftBytes(n, i) % 256) as byte];
    }
  }

  lemma {:induction false} LittleAppend(n: nat, k: nat)
    ensures LittleEndian(n, k + 1) == LittleEndian(n, k) + [(ShiftBytes(n, k) % 256) as byte]
    decreases k
  {
    if k == 0 {
      assert LittleEndian(n, 1) == [(n % 256) as byte] + LittleEndian(n / 256, 0);
    } else {
      LittleAppend(n / 256, k - 1);
      ShiftFirst(n, k - 1);
    }
  }

  method PutLittle(out: Bytes, n: nat, k: nat) returns (out': Bytes)
    ensures out' == out + LittleEndian(n, k)
  {
    out' := out;
    for i := 0 to k
      invariant out' == out + LittleEndian(n, i)
    {
      LittleAppend(n, i);
      out' := out' + [(ShiftBytes(n, i) % 256) as byte];
    }
  }

  method WriteLength(out: Bytes, n: nat) returns (out': Bytes)
    ensures out' == out + PutLength(n)
  {
    if n < 64 {
      out' := out + [n as byte];
    } else if n < 16384 {
      out' := out + [(64 + n / 256) as byte];
      out' := out' + [(n % 256) as byte];
    } else if n <= 0xFFFF_FFFF {
      out' := out + [0x80];
      out' := PutBig(out', n, 4);
    } else {
      out' := out + [0x81];
      out' := PutBig(out', n, 8);
    }
  }

  method WriteString(out: Bytes, s: Bytes) returns (out': Bytes)
    ensures out' == out + PutString(s)
  {
    out' := WriteLength(out, |s|);
    out' := out' + s;
  }

  method WriteRecord(out: Bytes, r: Record) returns (out': Bytes)
    requires |r.key| < TWO_64 && |r.value| < TWO_64 && FitsInt64(r.expireAt)
    ensures AllWritable(RecordOps(r)) && out' == out + PutOps(RecordOps(r))
  {
    hide PutLength;
    hide LittleEndian;
    out' := out;
    if r.expireAt != NO_EXPIRY {
      out' := out' + [OP_EXPIRE_MS];
      out' := PutLittle(out', ToUnsigned(r.expireAt), 8);
    }
    out' := out' + [TYPE_STRING];
    out' := WriteString(out', r.key);
    out' := WriteString(out', r.value);
    RecordBytes(r);
  }

  lemma {:induction false} RecordBytes(r: Record)
    requires |r.key| < TWO_64 && |r.value| < TWO_64 && FitsInt64(r.expireAt)
    ensures AllWritable(RecordOps(r))
    ensures PutOps(RecordOps(r)) ==
            (if r.expireAt == NO_EXPIRY then [] else [OP_EXPIRE_MS] + LittleEndian(ToUnsigned(r.expireAt), 8))
            + [TYPE_STRING] + PutString(r.key) + PutString(r.value)
  {
    hide PutLength;
    hide LittleEndian;
    var pair := KeyValue(r.key, r.value);
    assert PutOps([pair]) == PutOp(pair) + PutOps([]);
    if r.expireAt != NO_EXPIRY {
      assert RecordOps(r)[1..] == [pair];
    }
  }

  lemma {:induction false} PutOpsSplit(a: seq<Op>, b: seq<Op>)
    requires AllWritable(a) && AllWritable(b)
    ensures PutOps(a + b) == PutOps(a) + PutOps(b)
  {
    hide PutOp;
    if a == [] {
      assert a + b == b;
    } else {
      assert (a + b)[1..] == a[1..] + b;
      PutOpsSplit(a[1..], b);
    }
  }

  lemma {:induction false} RecordsOpsAppend(records: seq<Record>, r: Record)
    ensures RecordsOps(records + [r]) == RecordsOps(records) + RecordOps(r)
  {
    if records == [] {
      assert records + [r] == [r];
      assert RecordsOps([r]) == RecordOps(r) + RecordsOps([]);
    } else {
      assert (records + [r])[1..] == records[1..] + [r];
      RecordsOpsAppend(records[1..], r);
    }
  }

  method WriteRecords(out: Bytes, records: seq<Record>) returns (out': Bytes)
    requires Saveable(records)
    ensures AllWritable(RecordsOps(records)) && out' == out + PutOps(RecordsOps(records))
  {
    hide PutOps;
    hide RecordOps;
    RecordsWritable(records);
    NoOps();
    out' := out;
    for i := 0 to |records|
      invariant AllWritable(RecordsOps(records[..i])) && out' == out + PutOps(RecordsOps(records[..i]))
    {
      out' := WriteRecord(out', records[i]);
      assert records[..i + 1] == records[..i] + [records[i]];
      RecordsOpsAppend(records[..i], records[i]);
      PutOpsSplit(RecordsOps(records[..i]), RecordOps(records[i]));
    }
    assert records[..|records|] == records;
  }

  lemma {:induction false} NoOps()
    ensures PutOps([]) == []
  {}

  lemma {:induction false} PreambleBytes(records: seq<Record>)
    requires Saveable(records)
    ensures AllWritable(Preamble(records))
    ensures PutOps(Preamble(records)) ==
            [OP_AUX] + PutString(Ascii("redis-ver")) + PutString(Ascii("7.0.0-rp"))
            + [OP_SELECT_DB] + PutLength(0)
            + [OP_RESIZE_DB] + PutLength(|records|) + PutLength(Expiring(records))
  {
    hide PutLength;
    hide PutString;
    hide Expiring;
    var ops := Preamble(records);
    assert ops[1..] == [SelectDb(0), ResizeDb(|records|, Expiring(records))];
    assert ops[1..][1..] == [ResizeDb(|records|, Expiring(records))];
    assert PutOps(ops[1..][1..]) == PutOp(ops[2]) + PutOps([]);
    assert PutOps(ops[1..]) == PutOp(ops[1]) + PutOps(ops[1..][1..]);
  }

  method CountExpiring(records: seq<Record>) returns (n: nat)
    ensures n == Expiring(records)
  {
    n := 0;
    for i := 0 to |records|
      invariant n == Expiring(records[..i])
    {
      assert records[..i + 1][..i] == records[..i];
      if records[i].expireAt != NO_EXPIRY {
        n := n + 1;
      }
    }
    assert records[..|records|] == records;
  }

  /** rdb_serialize. */
  method SerializeSnapshot(records: seq<Record>) returns (out: Bytes)
    requires Saveable(records)
    ensures out == Serialize(records)
  {
    hide PutOps;
    hide PutLength;
    hide PutString;
    hide RecordsOps;
    hide Crc;
    out := MAGIC + VERSION;
    out := out + [OP_AUX];
    out := WriteString(out, Ascii("redis-ver"));
    out := WriteString(out, Ascii("7.0.0-rp"));
    out := out + [OP_SELECT_DB];
    out := WriteLength(out, 0);
    var withExpiry := CountExpiring(records);
    out := out + [OP_RESIZE_DB];
    out := WriteLength(out, |records|);
    out := WriteLength(out, withExpiry);
    PreambleBytes(records);
    assert out == MAGIC + VERSION + PutOps(Preamble(records));
    out := WriteRecords(out, records);
    PutOpsSplit(Preamble(records), RecordsOps(records));
    out := out + [OP_EOF];
    assert out == Covered(records);
    var table := BuildTable();
    var crc := ComputeCrc(ZERO, out, table);
    out := PutLittle(out, NatOf(crc), 8);
  }

  // ------------------------------------------------------------------
  // Reading
  // ------------------------------------------------------------------

  lemma {:induction false} FromLittleAppend(s: Bytes, b: byte)
    ensures FromLittle(s + [b]) == FromLittle(s) + b as int * Power256(|s|)
  {
    if s != [] {
      assert (s + [b])[1..] == s[1..] + [b];
      FromLittleAppend(s[1..], b);
      assert 256 * (b as int * Power256(|s| - 1)) == b as int * Power256(|s|);
    } else {
      assert s + [b] == [b];
      assert FromLittle([b][1..]) == 0;
    }
  }

  class Reader {
    const data: Bytes
    var pos: nat
    var ok: bool
    var error: Option<ReadError>

    constructor (data: Bytes)
      ensures this.data == data && pos == 0 && ok && error.None? && Valid()
    {
      this.data := data;
      pos, ok, error := 0, true, None;
    }

    ghost predicate Valid()
      reads this
    {
      pos <= |data| && (ok ==> error.None?)
    }

    /** The reader failed, for a reason the caller will report. */
    ghost predicate FailedWith(why: ReadError)
      reads this
    {
      !ok && error == if why.Truncated? then None else Some(why)
    }

    /** What a failed reader still guarantees: it stays failed, for the same reason. */
    twostate predicate StaysFailed()
      reads this
    {
      !old(ok) ==> !ok && error == old(error)
    }

    method Fail()
      modifies this`pos, this`ok
      ensures pos == |data| && !ok
    {
      ok := false;
      pos := |data|;
    }

    method U8() returns (b: byte)
      requires Valid()
      modifies this`pos, this`ok
      ensures Valid() && (!old(ok) ==> !ok)
      ensures old(pos) < |data| ==> pos == old(pos) + 1 && b == data[old(pos)] && ok == old(ok)
      ensures old(pos) == |data| ==> !ok && pos == |data| && b == 0
    {
      if pos + 1 > |data| {
        Fail();
        return 0;
      }
      b := data[pos];
      pos := pos + 1;
    }

    /** u64_le and u32_le. */
    method Little(k: nat) returns (v: nat)
      requires Valid()
      modifies this`pos, this`ok
      ensures Valid() && (!old(ok) ==> !ok)
      ensures old(ok) ==> var r := ReadFixed(data, old(pos), k);
                if r.Got? then ok && pos == r.next && v == FromLittle(r.value) else !ok
    {
      v := 0;
      assert data[pos..pos] == [];
      for i := 0 to k
        invariant Valid() && (!old(ok) ==> !ok)
        invariant old(pos) + i <= |data| ==>
                    pos == old(pos) + i && ok == old(ok) && v == FromLittle(data[old(pos)..old(pos) + i])
        invariant old(pos) + i > |data| ==> !ok && pos == |data|
      {
        ghost var p := pos;
        var b := U8();
        if old(pos) + i + 1 <= |data| {
          assert data[old(pos)..old(pos) + i + 1] == data[old(pos)..old(pos) + i] + [b];
          FromLittleAppend(data[old(pos)..old(pos) + i], b);
        }
        v := v + b as int * Power256(i);
      }
    }

    method Big(k: nat) returns (v: nat)
      requires Valid()
      modifies this`pos, this`ok
      ensures Valid() && (!old(ok) ==> !ok)
      ensures old(ok) ==> var r := ReadFixed(data, old(pos), k);
                if r.Got? then ok && pos == r.next && v == FromBig(r.value) else !ok
    {
      v := 0;
      assert data[pos..pos] == [];
      for i := 0 to k
        invariant Valid() && (!old(ok) ==> !ok)
        invariant old(pos) + i <= |data| ==>
                    pos == old(pos) + i && ok == old(ok) && v == FromBig(data[old(pos)..old(pos) + i])
        invariant old(pos) + i > |data| ==> !ok && pos == |data|
      {
        var b := U8();
        if old(pos) + i + 1 <= |data| {
          var more := data[old(pos)..old(pos) + i + 1];
          assert more[..i] == data[old(pos)..old(pos) + i];
        }
        v := v * 256 + b as int;
      }
    }

    method ReadLen() returns (length: Length)
      requires Valid()
      modifies this`pos, this`ok
      ensures Valid() && (!old(ok) ==> !ok)
      ensures old(ok) ==> var r := ReadLength(data, old(pos));
                if r.Got? then ok && pos == r.next && length == r.value
                else r.error.Truncated? && !ok
    {
      length := Plain(0);
      var first := U8();
      if !ok {
        return;
      }
      if first < 0x40 {
        length := Plain(first as int);
      } else if first < 0x80 {
        var second := U8();
        length := Plain((first as int - 0x40) * 256 + second as int);
      } else if first >= 0xC0 {
        length := Encoded(first as int - 0xC0);
      } else if first == 0x80 {
        var v := Big(4);
        length := Plain(v);
      } else if first == 0x81 {
        var v := Big(8);
        length := Plain(v);
      } else {
        Fail();
      }
    }

    method ReadInt(width: nat) returns (s: Bytes)
      requires Valid()
      modifies this`pos, this`ok
      ensures Valid() && (!old(ok) ==> !ok)
      ensures old(ok) ==> var r := ReadInteger(data, old(pos), width);
                if r.Got? then ok && pos == r.next && s == r.value
                else r.error.Truncated? && !ok
    {
      var v := Little(width);
      s := IntToString(ToSigned(v, width));
    }

    method Str() returns (s: Bytes)
      requires Valid()
      modifies this
      ensures Valid() && StaysFailed()
      ensures old(ok) ==> var r := ReadString(data, old(pos));
                if r.Got? then ok && pos == r.next && s == r.value else FailedWith(r.error)
    {
      hide ReadLength;
      hide IntToString;
      s := [];
      var length := ReadLen();
      if !ok {
        return;
      }
      match length
      case Encoded(code) =>
        if code == 0 {
          s := ReadInt(1);
        } else if code == 1 {
          s := ReadInt(2);
        } else if code == 2 {
          s := ReadInt(4);
        } else if code == 3 {
          error := Some(Compressed);
          ok := false;
        } else {
          error := Some(UnknownEncoding(code));
          ok := false;
        }
      case Plain(n) =>
        // The sum is a natural here; BoundsCheckExactly says what 64 bits make of it.
        if pos + n > |data| {
          if pos + n >= TWO_64 {
            error := Some(LengthWraps);
          }
          Fail();
          return;
        }
        s := data[pos..pos + n];
        pos := pos + n;
    }

    /** One turn of the loop of rdb_parse. */
    method Next() returns (item: Item)
      requires Valid() && ok && pos < |data|
      modifies this
      ensures Valid()
      ensures var r := ReadItem(data, old(pos));
              if r.Got? then ok && pos == r.next && item == r.value else FailedWith(r.error)
    {
      hide ReadLength;
      hide ReadString;
      hide FromLittle;
      item := Skipped;
      var code := U8();
      if code == OP_AUX {
        var _ := Str();
        var _ := Str();
      } else if code == OP_SELECT_DB {
        var _ := ReadLen();
      } else if code == OP_RESIZE_DB {
        var _ := ReadLen();
        var _ := ReadLen();
      } else if code == OP_EXPIRE_MS {
        var v := Little(8);
        item := Pending(ToSigned(v, 8));
      } else if code == OP_EXPIRE_SEC {
        var v := Little(4);
        item := Pending(v * 1000);
      } else if code == TYPE_STRING {
        var key := Str();
        var value := Str();
        item := Pair(key, value);
      } else {
        item := Unsupported(code);
      }
    }
  }

  method ReadTrailer(payload: Bytes) returns (stored: nat)
    requires |payload| >= 8
    ensures stored == StoredCrc(payload)
  {
    ghost var trailer := payload[|payload| - 8..];
    stored := 0;
    for i := 0 to 8
      invariant stored == FromLittle(trailer[..i])
    {
      var b := payload[|payload| - 8 + i];
      assert trailer[..i + 1] == trailer[..i] + [b];
      FromLittleAppend(trailer[..i], b);
      stored := stored + b as int * Power256(i);
    }
    assert trailer[..8] == trailer;
  }

  /** rdb_parse. */
  method ParseSnapshot(payload: Bytes) returns (result: RdbResult)
    ensures result == Parse(payload)
  {
    hide ReadItem;
    hide Crc;
    if |payload| < HEADER {
      return Rejected(TooShort, []);
    }
    if payload[..5] != MAGIC {
      return Rejected(BadMagic, []);
    }
    if Greater(payload[5..9], VERSION) {
      return Rejected(NewerVersion, []);
    }
    if |payload| < HEADER + 9 {
      return Rejected(NoEof, []);
    }
    var end := |payload| - 8;
    var stored := ReadTrailer(payload);
    if payload[end - 1] != OP_EOF {
      return Rejected(EofMissing, []);
    }
    if stored != 0 {
      var table := BuildTable();
      var actual := ComputeCrc(ZERO, payload[..end], table);
      if NatOf(actual) != stored {
        return Rejected(ChecksumMismatch, []);
      }
    }
    result := ParseBody(payload[HEADER..|payload| - 9]);
  }

  method ParseBody(data: Bytes) returns (result: RdbResult)
    ensures result == ParseItems(data, 0, NO_EXPIRY, [])
  {
    hide ReadItem;
    var r := new Reader(data);
    var pending := NO_EXPIRY;
    var out: seq<Record> := [];
    while r.pos < |data|
      invariant r.Valid() && r.ok && r.data == data
      invariant ParseItems(data, r.pos, pending, out) == ParseItems(data, 0, NO_EXPIRY, [])
      decreases |data| - r.pos
    {
      var item := r.Next();
      if !r.ok {
        return Malformation(if r.error.Some? then r.error.value else Truncated);
      }
      match item {
        case Skipped =>
        case Pending(at) =>
          pending := at;
        case Pair(key, value) =>
          out := out + [Record(key, value, pending)];
          pending := NO_EXPIRY;
        case Unsupported(code) =>
          return Rejected(UnsupportedOp(code), out);
      }
    }
    result := Parsed(out);
  }
}
