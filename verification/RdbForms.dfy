/** Which payloads the snapshot reader accepts, from any writer: lengths in any of
    the four encodings, strings kept as integers, deadlines in seconds, fields it
    skips.  A payload is accepted exactly when it is written in these forms, and the
    records it yields are read off the forms. */
module RdbForms {
  import opened ByteStrings
  import opened Keyspace
  import opened Crc64
  import opened Rdb

  // ------------------------------------------------------------------
  // Fixed-width integers read and write alike
  // ------------------------------------------------------------------

  lemma {:induction false} LittleWrites(s: Bytes)
    ensures FromLittle(s) < Power256(|s|) && LittleEndian(FromLittle(s), |s|) == s
  {
    if s != [] {
      LittleWrites(s[1..]);
      assert s == [s[0]] + s[1..];
      assert FromLittle(s) / 256 == FromLittle(s[1..]) && FromLittle(s) % 256 == s[0] as int;
    }
  }

  lemma {:induction false} BigWrites(s: Bytes)
    ensures FromBig(s) < Power256(|s|) && BigEndian(FromBig(s), |s|) == s
  {
    if s != [] {
      var front, last := s[..|s| - 1], s[|s| - 1];
      BigWrites(front);
      assert s == front + [last];
      assert FromBig(s) / 256 == FromBig(front) && FromBig(s) % 256 == last as int;
    }
  }

  // ------------------------------------------------------------------
  // Lengths
  // ------------------------------------------------------------------

  datatype LengthAs = InSixBits | InFourteenBits | InFourBytes | InEightBytes

  predicate LengthFits(how: LengthAs, n: nat)
  {
    match how
    case InSixBits => n < 64
    case InFourteenBits => n < 16384
    case InFourBytes => n < Power256(4)
    case InEightBytes => n < Power256(8)
  }

  function LengthBytes(how: LengthAs, n: nat): (r: Bytes)
    requires LengthFits(how, n)
    ensures r != []
  {
    match how
    case InSixBits => [n as byte]
    case InFourteenBits => [(64 + n / 256) as byte, (n % 256) as byte]
    case InFourBytes => [0x80] + BigEndian(n, 4)
    case InEightBytes => [0x81] + BigEndian(n, 8)
  }

  /** A length reads the same in whichever encoding has room for it. */
  lemma {:induction false} AnyLengthReads(data: Bytes, pos: nat, how: LengthAs, n: nat)
    requires LengthFits(how, n) && At(data, pos, LengthBytes(how, n))
    ensures ReadLength(data, pos) == Got(Plain(n), pos + |LengthBytes(how, n)|)
  {
    AtIndex(data, pos, LengthBytes(how, n), 0);
    match how
    case InSixBits =>
    case InFourteenBits => AtIndex(data, pos, LengthBytes(how, n), 1);
    case InFourBytes => BigLengthReads(data, pos, 0x80, n, 4);
    case InEightBytes => BigLengthReads(data, pos, 0x81, n, 8);
  }

  lemma {:induction false} BigLengthReads(data: Bytes, pos: nat, mark: byte, n: nat, k: nat)
    requires n < Power256(k) && At(data, pos, [mark] + BigEndian(n, k))
    ensures ReadBig(data, pos + 1, k) == Got(Plain(n), pos + 1 + k)
  {
    hide BigEndian;
    hide FromBig;
    AtParts(data, pos, [mark], BigEndian(n, k));
    FixedReads(data, pos + 1, BigEndian(n, k));
    BigReads(n, k);
  }

  lemma {:induction false} LengthIsForm(data: Bytes, pos: nat) returns (how: LengthAs)
    requires ReadLength(data, pos).Got? && ReadLength(data, pos).value.Plain?
    ensures var r := ReadLength(data, pos);
            && LengthFits(how, r.value.n)
            && At(data, pos, LengthBytes(how, r.value.n))
            && r.next == pos + |LengthBytes(how, r.value.n)|
  {
    hide BigEndian;
    hide ReadBig;
    hide Power256;
    var first := data[pos] as int;
    if first < 0x40 {
      how := InSixBits;
    } else if first < 0x80 {
      how := InFourteenBits;
      TwoByteLength(data[pos], data[pos + 1]);
    } else if first == 0x80 {
      how := InFourBytes;
      BigLengthIsForm(data, pos, 4);
    } else {
      how := InEightBytes;
      BigLengthIsForm(data, pos, 8);
    }
  }

  lemma {:induction false} TwoByteLength(a: byte, b: byte)
    requires 0x40 <= a < 0x80
    ensures var n := (a as int - 0x40) * 256 + b as int;
            LengthFits(InFourteenBits, n) && LengthBytes(InFourteenBits, n) == [a, b]
  {}

  lemma {:induction false} BigLengthIsForm(data: Bytes, pos: nat, k: nat)
    requires pos < |data| && ReadBig(data, pos + 1, k).Got?
    ensures var n := ReadBig(data, pos + 1, k).value.n;
            && n < Power256(k) && At(data, pos, [data[pos]] + BigEndian(n, k))
            && ReadBig(data, pos + 1, k).next == pos + 1 + k
  {
    hide BigEndian;
    hide FromBig;
    var bytes := data[pos + 1..pos + 1 + k];
    BigWrites(bytes);
    assert data[pos..pos + 1 + k] == [data[pos]] + bytes;
  }

  // ------------------------------------------------------------------
  // Strings
  // ------------------------------------------------------------------

  /** The number of `width` bytes that stands for `n`. */
  function TwosComplement(n: int, width: nat): nat
    requires 0 <= 2 * n + Power256(width)
  {
    if n < 0 then n + Power256(width) else n
  }

  predicate InWidth(n: int, width: nat) { 0 <= 2 * n + Power256(width) && 2 * n < Power256(width) }

  datatype Text = Sized(how: LengthAs, bytes: Bytes) | AsInteger(code: nat, n: int)

  function WidthOf(code: nat): nat { if code == 0 then 1 else if code == 1 then 2 else 4 }

  predicate TextFits(t: Text)
  {
    match t
    case Sized(how, bytes) => LengthFits(how, |bytes|)
    case AsInteger(code, n) => code <= 2 && InWidth(n, WidthOf(code))
  }

  function TextBytes(t: Text): (r: Bytes)
    requires TextFits(t)
    ensures r != []
  {
    match t
    case Sized(how, bytes) => LengthBytes(how, |bytes|) + bytes
    case AsInteger(code, n) =>
      [(0xC0 + code) as byte] + LittleEndian(TwosComplement(n, WidthOf(code)), WidthOf(code))
  }

  /** The string meant: the bytes themselves, or the integer in decimal. */
  function TextValue(t: Text): Bytes
  {
    match t
    case Sized(_, bytes) => bytes
    case AsInteger(_, n) => IntToString(n)
  }

  lemma {:induction false} SignedReads(n: int, width: nat)
    requires InWidth(n, width)
    ensures ToSigned(FromLittle(LittleEndian(TwosComplement(n, width), width)), width) == n
  {
    LittleReads(TwosComplement(n, width), width);
  }

  lemma {:induction false} SignedWrites(s: Bytes)
    ensures var n := ToSigned(FromLittle(s), |s|);
            InWidth(n, |s|) && LittleEndian(TwosComplement(n, |s|), |s|) == s
  {
    LittleWrites(s);
  }

  /** An integer of one, two or four bytes reads as its decimal form, and the reader
      goes on just past it. */
  lemma {:induction false} IntegerReads(data: Bytes, pos: nat, code: nat, n: int)
    requires TextFits(AsInteger(code, n)) && At(data, pos, TextBytes(AsInteger(code, n)))
    ensures ReadString(data, pos) == Got(IntToString(n), pos + 1 + WidthOf(code))
  {
    hide LittleEndian;
    hide ToSigned;
    hide IntToString;
    var width := WidthOf(code);
    var digits := LittleEndian(TwosComplement(n, width), width);
    AtParts(data, pos, [(0xC0 + code) as byte], digits);
    AtByte(data, pos, (0xC0 + code) as byte);
    FixedReads(data, pos + 1, digits);
    SignedReads(n, width);
  }

  lemma {:induction false} TextReads(data: Bytes, pos: nat, t: Text)
    requires TextFits(t) && At(data, pos, TextBytes(t))
    ensures ReadString(data, pos) == Got(TextValue(t), pos + |TextBytes(t)|)
  {
    hide ReadLength;
    hide LengthBytes;
    hide LittleEndian;
    match t
    case Sized(how, bytes) =>
      AtParts(data, pos, LengthBytes(how, |bytes|), bytes);
      AnyLengthReads(data, pos, how, |bytes|);
      FixedReads(data, pos + |LengthBytes(how, |bytes|)|, bytes);
    case AsInteger(code, n) => IntegerReads(data, pos, code, n);
  }

  lemma {:induction false} TextIsForm(data: Bytes, pos: nat) returns (t: Text)
    requires ReadString(data, pos).Got?
    ensures var r := ReadString(data, pos);
            && TextFits(t) && At(data, pos, TextBytes(t))
            && r == Got(TextValue(t), pos + |TextBytes(t)|)
  {
    hide LengthBytes;
    hide IntToString;
    var length := ReadLength(data, pos);
    if length.value.Plain? {
      var how := SizedIsForm(data, pos);
      t := Sized(how, ReadString(data, pos).value);
    } else {
      t := IntegerIsForm(data, pos);
    }
  }

  lemma {:induction false} SizedIsForm(data: Bytes, pos: nat) returns (how: LengthAs)
    requires ReadString(data, pos).Got? && ReadLength(data, pos).value.Plain?
    ensures var t := Sized(how, ReadString(data, pos).value);
            && TextFits(t) && At(data, pos, TextBytes(t))
            && ReadString(data, pos).next == pos + |TextBytes(t)|
  {
    hide LengthBytes;
    hide ReadLength;
    how := LengthIsForm(data, pos);
    var length := ReadLength(data, pos);
    var head := LengthBytes(how, length.value.n);
    AtJoin(data, pos, head, ReadString(data, pos).value);
  }

  lemma {:induction false} IntegerIsForm(data: Bytes, pos: nat) returns (t: Text)
    requires ReadString(data, pos).Got? && ReadLength(data, pos).value.Encoded?
    ensures t.AsInteger? && TextFits(t) && At(data, pos, TextBytes(t))
    ensures ReadString(data, pos) == Got(TextValue(t), pos + |TextBytes(t)|)
  {
    hide IntToString;
    hide ToSigned;
    hide FromLittle;
    hide LittleEndian;
    hide InWidth;
    var code := ReadLength(data, pos).value.code;
    var width := WidthOf(code);
    var bytes := data[pos + 1..pos + 1 + width];
    SignedWrites(bytes);
    t := AsInteger(code, ToSigned(FromLittle(bytes), width));
    assert data[pos..pos + 1 + width] == [data[pos]] + bytes;
  }

  // ------------------------------------------------------------------
  // Fields
  // ------------------------------------------------------------------

  /** A length in a place where the reader ignores it may also be the mark of an
      encoded string, which says nothing. */
  datatype Ignored = Counting(how: LengthAs, n: nat) | Marked(code: nat)

  predicate IgnoredFits(x: Ignored)
  {
    match x
    case Counting(how, n) => LengthFits(how, n)
    case Marked(code) => code < 64
  }

  function IgnoredBytes(x: Ignored): Bytes
    requires IgnoredFits(x)
  {
    match x
    case Counting(how, n) => LengthBytes(how, n)
    case Marked(code) => [(0xC0 + code) as byte]
  }

  lemma {:induction false} IgnoredReads(data: Bytes, pos: nat, x: Ignored)
    requires IgnoredFits(x) && At(data, pos, IgnoredBytes(x))
    ensures ReadLength(data, pos).Got? && ReadLength(data, pos).next == pos + |IgnoredBytes(x)|
  {
    match x
    case Counting(how, n) => AnyLengthReads(data, pos, how, n);
    case Marked(code) => AtByte(data, pos, (0xC0 + code) as byte);
  }

  lemma {:induction false} IgnoredIsForm(data: Bytes, pos: nat) returns (x: Ignored)
    requires ReadLength(data, pos).Got?
    ensures IgnoredFits(x) && At(data, pos, IgnoredBytes(x))
    ensures ReadLength(data, pos).next == pos + |IgnoredBytes(x)|
  {
    hide LengthBytes;
    hide LengthFits;
    var r := ReadLength(data, pos);
    if r.value.Plain? {
      var how := LengthIsForm(data, pos);
      x := Counting(how, r.value.n);
    } else {
      x := Marked(r.value.code);
    }
  }

  datatype Form =
    | Note(name: Text, text: Text)
    | Choose(db: Ignored)
    | Sizes(keys: Ignored, expiring: Ignored)
    | DeadlineMs(at: int)
    | DeadlineSec(s: nat)
    | Kept(key: Text, value: Text)

  predicate FormFits(f: Form)
  {
    match f
    case Note(name, text) => TextFits(name) && TextFits(text)
    case Choose(db) => IgnoredFits(db)
    case Sizes(keys, expiring) => IgnoredFits(keys) && IgnoredFits(expiring)
    case DeadlineMs(at) => InWidth(at, 8)
    case DeadlineSec(s) => s < Power256(4)
    case Kept(key, value) => TextFits(key) && TextFits(value)
  }

  function FormBytes(f: Form): (r: Bytes)
    requires FormFits(f)
    ensures r != []
  {
    match f
    case Note(name, text) => [OP_AUX] + (TextBytes(name) + TextBytes(text))
    case Choose(db) => [OP_SELECT_DB] + IgnoredBytes(db)
    case Sizes(keys, expiring) => [OP_RESIZE_DB] + (IgnoredBytes(keys) + IgnoredBytes(expiring))
    case DeadlineMs(at) => [OP_EXPIRE_MS] + LittleEndian(TwosComplement(at, 8), 8)
    case DeadlineSec(s) => [OP_EXPIRE_SEC] + LittleEndian(s, 4)
    case Kept(key, value) => [TYPE_STRING] + (TextBytes(key) + TextBytes(value))
  }

  /** What a field tells the reader. */
  function Tells(f: Form): Item
  {
    match f
    case DeadlineMs(at) => Pending(at)
    case DeadlineSec(s) => Pending(s * 1000)
    case Kept(key, value) => Pair(TextValue(key), TextValue(value))
    case _ => Skipped
  }

  lemma {:induction false} TwoTextsRead(data: Bytes, pos: nat, a: Text, b: Text)
    requires TextFits(a) && TextFits(b) && At(data, pos, TextBytes(a) + TextBytes(b))
    ensures ReadTwoStrings(data, pos) == Got((TextValue(a), TextValue(b)), pos + |TextBytes(a) + TextBytes(b)|)
  {
    hide ReadString;
    hide TextBytes;
    hide TextValue;
    AtParts(data, pos, TextBytes(a), TextBytes(b));
    TextReads(data, pos, a);
    TextReads(data, pos + |TextBytes(a)|, b);
  }

  lemma {:induction false} DeadlineFormReads(data: Bytes, pos: nat, f: Form)
    requires (f.DeadlineMs? || f.DeadlineSec?) && FormFits(f) && At(data, pos, FormBytes(f))
    ensures pos < |data| && ReadItem(data, pos) == Got(Tells(f), pos + |FormBytes(f)|)
  {
    hide LittleEndian;
    hide FromLittle;
    hide ToSigned;
    hide At;
    var code, rest := FormBytes(f)[0], FormBytes(f)[1..];
    assert FormBytes(f) == [code] + rest;
    AtParts(data, pos, [code], rest);
    AtByte(data, pos, code);
    FixedReads(data, pos + 1, rest);
    if f.DeadlineMs? {
      SignedReads(f.at, 8);
    } else {
      LittleReads(f.s, 4);
    }
  }

  /** Every field is read as what it tells. */
  lemma {:induction false} FormReads(data: Bytes, pos: nat, f: Form)
    requires FormFits(f) && At(data, pos, FormBytes(f))
    ensures pos < |data| && ReadItem(data, pos) == Got(Tells(f), pos + |FormBytes(f)|)
  {
    hide ReadTwoStrings;
    hide ReadLength;
    hide TextBytes;
    hide TextValue;
    hide IgnoredBytes;
    hide LittleEndian;
    hide FromLittle;
    hide ToSigned;
    hide Power256;
    hide At;
    var code, rest := FormBytes(f)[0], FormBytes(f)[1..];
    assert FormBytes(f) == [code] + rest;
    AtParts(data, pos, [code], rest);
    AtByte(data, pos, code);
    match f
    case Note(name, text) => TwoTextsRead(data, pos + 1, name, text);
    case Choose(db) => IgnoredReads(data, pos + 1, db);
    case Sizes(keys, expiring) =>
      AtParts(data, pos + 1, IgnoredBytes(keys), IgnoredBytes(expiring));
      IgnoredReads(data, pos + 1, keys);
      IgnoredReads(data, pos + 1 + |IgnoredBytes(keys)|, expiring);
    case DeadlineMs(_) => DeadlineFormReads(data, pos, f);
    case DeadlineSec(_) => DeadlineFormReads(data, pos, f);
    case Kept(key, value) => TwoTextsRead(data, pos + 1, key, value);
  }

  lemma {:induction false} TwoTextsAreForms(data: Bytes, pos: nat) returns (a: Text, b: Text)
    requires ReadTwoStrings(data, pos).Got?
    ensures TextFits(a) && TextFits(b) && At(data, pos, TextBytes(a) + TextBytes(b))
    ensures ReadTwoStrings(data, pos) == Got((TextValue(a), TextValue(b)), pos + |TextBytes(a) + TextBytes(b)|)
  {
    hide ReadString;
    hide TextBytes;
    hide TextValue;
    hide TextFits;
    a := TextIsForm(data, pos);
    b := TextIsForm(data, pos + |TextBytes(a)|);
    AtJoin(data, pos, TextBytes(a), TextBytes(b));
  }

  lemma {:induction false} CountsAreForms(data: Bytes, pos: nat) returns (a: Ignored, b: Ignored)
    requires ReadLength(data, pos).Got? && ReadLength(data, ReadLength(data, pos).next).Got?
    ensures IgnoredFits(a) && IgnoredFits(b) && At(data, pos, IgnoredBytes(a) + IgnoredBytes(b))
    ensures ReadLength(data, ReadLength(data, pos).next).next == pos + |IgnoredBytes(a) + IgnoredBytes(b)|
  {
    hide ReadLength;
    hide IgnoredBytes;
    hide IgnoredFits;
    a := IgnoredIsForm(data, pos);
    b := IgnoredIsForm(data, pos + |IgnoredBytes(a)|);
    AtJoin(data, pos, IgnoredBytes(a), IgnoredBytes(b));
  }

  lemma {:induction false} AfterByte(data: Bytes, pos: nat, x: Bytes)
    requires pos < |data| && At(data, pos + 1, x)
    ensures At(data, pos, [data[pos]] + x)
  {
    assert data[pos..pos + 1] == [data[pos]];
    AtJoin(data, pos, [data[pos]], x);
  }

  /** Whatever is read as a field is one. */
  lemma {:induction false} ItemIsForm(data: Bytes, pos: nat) returns (f: Form)
    requires pos < |data| && ReadItem(data, pos).Got? && !ReadItem(data, pos).value.Unsupported?
    ensures FormFits(f) && At(data, pos, FormBytes(f))
    ensures ReadItem(data, pos) == Got(Tells(f), pos + |FormBytes(f)|)
  {
    hide ReadTwoStrings;
    hide ReadLength;
    hide TextBytes;
    hide TextValue;
    hide TextFits;
    hide IgnoredBytes;
    hide IgnoredFits;
    hide LittleEndian;
    hide FromLittle;
    hide ToSigned;
    hide InWidth;
    hide At;
    var code := data[pos];
    if code == OP_AUX || code == TYPE_STRING {
      var a, b := TwoTextsAreForms(data, pos + 1);
      f := if code == OP_AUX then Note(a, b) else Kept(a, b);
      AfterByte(data, pos, TextBytes(a) + TextBytes(b));
    } else if code == OP_SELECT_DB {
      var db := IgnoredIsForm(data, pos + 1);
      f := Choose(db);
      AfterByte(data, pos, IgnoredBytes(db));
    } else if code == OP_RESIZE_DB {
      var a, b := CountsAreForms(data, pos + 1);
      f := Sizes(a, b);
      AfterByte(data, pos, IgnoredBytes(a) + IgnoredBytes(b));
    } else {
      f := DeadlineIsForm(data, pos);
    }
  }

  lemma {:induction false} DeadlineIsForm(data: Bytes, pos: nat) returns (f: Form)
    requires pos < |data| && (data[pos] == OP_EXPIRE_MS || data[pos] == OP_EXPIRE_SEC)
    requires ReadItem(data, pos).Got?
    ensures FormFits(f) && At(data, pos, FormBytes(f))
    ensures ReadItem(data, pos) == Got(Tells(f), pos + |FormBytes(f)|)
  {
    hide LittleEndian;
    hide FromLittle;
    hide ToSigned;
    hide InWidth;
    var k := if data[pos] == OP_EXPIRE_MS then 8 else 4;
    var bytes := data[pos + 1..pos + 1 + k];
    AfterByte(data, pos, bytes);
    if k == 8 {
      SignedWrites(bytes);
      f := DeadlineMs(ToSigned(FromLittle(bytes), 8));
    } else {
      LittleWrites(bytes);
      f := DeadlineSec(FromLittle(bytes));
    }
  }

  // ------------------------------------------------------------------
  // Bodies
  // ------------------------------------------------------------------

  predicate AllFit(forms: seq<Form>) { forall i :: 0 <= i < |forms| ==> FormFits(forms[i]) }

  function BodyBytes(forms: seq<Form>): Bytes
    requires AllFit(forms)
  {
    if forms == [] then [] else FormBytes(forms[0]) + BodyBytes(forms[1..])
  }

  /** The deadline that holds before field `i`: the last one given since the key
      before it, if any. */
  function DeadlineBefore(forms: seq<Form>, i: nat): int
    requires i <= |forms|
  {
    if i == 0 then NO_EXPIRY
    else match forms[i - 1]
      case DeadlineMs(at) => at
      case DeadlineSec(s) => s * 1000
      case Kept(_, _) => NO_EXPIRY
      case _ => DeadlineBefore(forms, i - 1)
  }

  /** The records of the first `n` fields: one for each key and value, with the
      deadline that holds there. */
  function RecordsUpTo(forms: seq<Form>, n: nat): seq<Record>
    requires n <= |forms|
  {
    if n == 0 then []
    else
      RecordsUpTo(forms, n - 1) +
      match forms[n - 1]
      case Kept(key, value) => [Record(TextValue(key), TextValue(value), DeadlineBefore(forms, n - 1))]
      case _ => []
  }

  function RecordsOf(forms: seq<Form>): seq<Record> { RecordsUpTo(forms, |forms|) }

  lemma {:induction false} BodyParses(data: Bytes, pos: nat, forms: seq<Form>, i: nat)
    requires AllFit(forms) && i <= |forms|
    requires At(data, pos, BodyBytes(forms[i..])) && pos + |BodyBytes(forms[i..])| == |data|
    ensures ParseItems(data, pos, DeadlineBefore(forms, i), RecordsUpTo(forms, i)) == Parsed(RecordsOf(forms))
    decreases |forms| - i
  {
    hide ReadItem;
    hide FormBytes;
    hide TextValue;
    hide At;
    if i < |forms| {
      assert forms[i..][1..] == forms[i + 1..];
      AtParts(data, pos, FormBytes(forms[i]), BodyBytes(forms[i + 1..]));
      FormReads(data, pos, forms[i]);
      BodyParses(data, pos + |FormBytes(forms[i])|, forms, i + 1);
      assert RecordsUpTo(forms, i) + [] == RecordsUpTo(forms, i);
    }
  }

  lemma {:induction false} BodyIsForms(data: Bytes, pos: nat, pending: int, out: seq<Record>)
    returns (forms: seq<Form>)
    requires pos <= |data| && ParseItems(data, pos, pending, out).Parsed?
    ensures AllFit(forms) && At(data, pos, BodyBytes(forms)) && pos + |BodyBytes(forms)| == |data|
    decreases |data| - pos
  {
    hide ReadItem;
    hide FormBytes;
    hide FormFits;
    if pos == |data| {
      forms := [];
    } else {
      var item := ReadItem(data, pos);
      var f := ItemIsForm(data, pos);
      var told := item.value;
      var until := if told.Pending? then told.at else if told.Pair? then NO_EXPIRY else pending;
      var found := if told.Pair? then out + [Record(told.key, told.value, pending)] else out;
      var rest := BodyIsForms(data, item.next, until, found);
      forms := [f] + rest;
      assert forms[1..] == rest;
      AtJoin(data, pos, FormBytes(f), BodyBytes(rest));
    }
  }

  // ------------------------------------------------------------------
  // Payloads
  // ------------------------------------------------------------------

  /** A version no later than the writer's own, then fields, the end mark, and a
      checksum that is right or switched off. */
  predicate Snapshot(payload: Bytes, version: Bytes, forms: seq<Form>, trailer: Bytes)
  {
    && AllFit(forms) && |version| == 4 && |trailer| == 8
    && payload == MAGIC + version + BodyBytes(forms) + [OP_EOF] + trailer
    && !Greater(version, VERSION)
    && (FromLittle(trailer) == 0
        || FromLittle(trailer) == NatOf(Crc(ZERO, MAGIC + version + BodyBytes(forms) + [OP_EOF])))
  }

  /** Every such payload is accepted, and yields the records of its fields. */
  lemma {:induction false} SnapshotParses(payload: Bytes, version: Bytes, forms: seq<Form>, trailer: Bytes)
    requires Snapshot(payload, version, forms, trailer)
    ensures Parse(payload) == Parsed(RecordsOf(forms))
  {
    hide Crc;
    hide BodyBytes;
    hide Greater;
    hide FromLittle;
    hide ParseItems;
    hide RecordsUpTo;
    hide AllFit;
    var body := BodyBytes(forms);
    var end := |payload| - 8;
    assert payload[..5] == MAGIC && payload[5..9] == version && payload[end..] == trailer;
    assert payload[..end] == MAGIC + version + body + [OP_EOF];
    assert payload[HEADER..end - 1] == body == body[0..|body|];
    assert forms[0..] == forms;
    BodyParses(body, 0, forms, 0);
    NoneYet(forms);
  }

  lemma {:induction false} NoneYet(forms: seq<Form>)
    ensures RecordsUpTo(forms, 0) == [] && DeadlineBefore(forms, 0) == NO_EXPIRY
  {}

  /** Nothing else is accepted. */
  lemma {:induction false} ParsedIsSnapshot(payload: Bytes)
    returns (version: Bytes, forms: seq<Form>, trailer: Bytes)
    requires Parse(payload).Parsed?
    ensures Snapshot(payload, version, forms, trailer)
    ensures Parse(payload) == Parsed(RecordsOf(forms))
  {
    hide Crc;
    hide BodyBytes;
    hide Greater;
    hide FromLittle;
    hide ParseItems;
    hide RecordsOf;
    hide AllFit;
    var end := |payload| - 8;
    var data := payload[HEADER..end - 1];
    version, trailer := payload[5..9], payload[end..];
    forms := BodyIsForms(data, 0, NO_EXPIRY, []);
    assert data[0..|data|] == data == BodyBytes(forms);
    assert payload[..end] == MAGIC + version + data + [OP_EOF];
    assert payload == payload[..end] + trailer;
    SnapshotParses(payload, version, forms, trailer);
  }

  /** Of versions in four digits, those up to eleven pass. */
  lemma {:induction false} VersionOrder(version: Bytes)
    requires |version| == 4 && AllDigits(version)
    ensures Greater(version, VERSION) <==> DecimalValue(version) > 11
  {
    var b := VERSION;
    assert b[0] == 48 && b[1] == 48 && b[2] == 49 && b[3] == 49;
    FourBytes(version, b);
    FourDigits(version);
  }

  lemma {:induction false} FourBytes(a: Bytes, b: Bytes)
    requires |a| == 4 && |b| == 4
    ensures Greater(a, b) <==>
            || a[0] > b[0]
            || (a[0] == b[0] && (a[1] > b[1]
                || (a[1] == b[1] && (a[2] > b[2] || (a[2] == b[2] && a[3] > b[3])))))
  {
    GreaterFrom(a, b, 0);
    GreaterFrom(a, b, 1);
    GreaterFrom(a, b, 2);
    GreaterFrom(a, b, 3);
    assert a[0..] == a && b[0..] == b && !Greater(a[4..], b[4..]);
  }

  lemma {:induction false} GreaterFrom(a: Bytes, b: Bytes, i: nat)
    requires i < |a| == |b|
    ensures Greater(a[i..], b[i..]) <==> a[i] > b[i] || (a[i] == b[i] && Greater(a[i + 1..], b[i + 1..]))
  {
    assert a[i..][1..] == a[i + 1..] && b[i..][1..] == b[i + 1..];
  }

  lemma {:induction false} FourDigits(s: Bytes)
    requires |s| == 4 && AllDigits(s)
    ensures DecimalValue(s) ==
            DigitValue(s[0]) * 1000 + DigitValue(s[1]) * 100 + DigitValue(s[2]) * 10 + DigitValue(s[3])
  {
    assert s[..3][..2] == s[..2] && s[..2][..1] == s[..1] && s[..1][..0] == [];
    assert DecimalValue(s[..1]) == DigitValue(s[0]);
    assert DecimalValue(s[..2]) == DecimalValue(s[..1]) * 10 + DigitValue(s[1]);
    assert DecimalValue(s[..3]) == DecimalValue(s[..2]) * 10 + DigitValue(s[2]);
  }

  /** A deadline in seconds is that of the next key, in milliseconds. */
  lemma {:induction false} SecondsThenKey(s: nat, key: Text, value: Text)
    requires s < Power256(4) && TextFits(key) && TextFits(value)
    ensures RecordsOf([DeadlineSec(s), Kept(key, value)]) == [Record(TextValue(key), TextValue(value), s * 1000)]
  {
    var forms := [DeadlineSec(s), Kept(key, value)];
    assert RecordsUpTo(forms, 1) == [];
  }
}