/** CRC-64 with the Jones polynomial, reflected: the checksum of a snapshot.
    A 64-bit word is modelled by its bits, index 0 the least significant.  The
    table-driven loop is proved equal to schoolbook division of polynomials over
    GF(2), and to tell apart any two inputs that differ within eight bytes. */
module Crc64 {
  import opened ByteStrings

  type Bits = seq<bool>
  type Word = w: Bits | |w| == 64 witness seq(64, _ => false)

  // ------------------------------------------------------------------
  // Bits of numbers
  // ------------------------------------------------------------------

  function BitsOf(n: nat, width: nat): (r: Bits)
    ensures |r| == width
    decreases width
  {
    if width == 0 then [] else [n % 2 == 1] + BitsOf(n / 2, width - 1)
  }

  lemma {:induction false} LowBit(n: nat, width: nat)
    requires width > 0
    ensures BitsOf(n, width)[0] == (n % 2 == 1)
  {}

  function NatOf(bits: Bits): nat
  {
    if bits == [] then 0 else (if bits[0] then 1 else 0) + 2 * NatOf(bits[1..])
  }

  function ByteBits(b: byte): (r: Bits)
    ensures |r| == 8
  {
    BitsOf(b as int, 8)
  }

  function PowerOfTwo(k: nat): (p: nat)
    ensures p >= 1
  {
    if k == 0 then 1 else 2 * PowerOfTwo(k - 1)
  }

  lemma {:induction false} NatOfBitsOf(n: nat, width: nat)
    requires n < PowerOfTwo(width)
    ensures NatOf(BitsOf(n, width)) == n
    decreases width
  {
    if width > 0 {
      NatOfBitsOf(n / 2, width - 1);
    }
  }

  lemma {:induction false} BitsOfNatOf(bits: Bits)
    ensures NatOf(bits) < PowerOfTwo(|bits|)
    ensures BitsOf(NatOf(bits), |bits|) == bits
  {
    if bits != [] {
      BitsOfNatOf(bits[1..]);
      assert bits == [bits[0]] + bits[1..];
    }
  }

  lemma {:induction false} ByteBitsInjective(a: byte, b: byte)
    requires ByteBits(a) == ByteBits(b)
    ensures a == b
  {
    assert PowerOfTwo(8) == 256;
    NatOfBitsOf(a as int, 8);
    NatOfBitsOf(b as int, 8);
  }

  // ------------------------------------------------------------------
  // Word arithmetic
  // ------------------------------------------------------------------

  const POLY: Word := BitsOf(0xad93d23594c935a9, 64)
  const ZERO: Word := Zeros(64)

  function Xor(a: Bits, b: Bits): (r: Bits)
    requires |a| == |b|
    ensures |r| == |a|
    ensures forall i :: 0 <= i < |a| ==> r[i] == (a[i] != b[i])
  {
    seq(|a|, i requires 0 <= i < |a| => a[i] != b[i])
  }

  function Reverse(a: Bits): (r: Bits)
    ensures |r| == |a|
    ensures forall i :: 0 <= i < |a| ==> r[i] == a[|a| - 1 - i]
  {
    seq(|a|, i requires 0 <= i < |a| => a[|a| - 1 - i])
  }

  function Zeros(n: nat): (r: Bits)
    ensures |r| == n && forall i :: 0 <= i < n ==> !r[i]
  {
    seq(n, _ => false)
  }

  function ShiftLeft(a: Word): Word { [false] + a[..63] }

  function ShiftRight(a: Word): Word { a[1..] + [false] }

  function ShiftRight8(a: Word): Word { a[8..] + Zeros(8) }

  /** The low bit of the polynomial is set: what makes each step reversible. */
  lemma {:induction false} PolyIsOdd()
    ensures POLY[0]
  {
    hide BitsOf;
    LowBit(0xad93d23594c935a9, 64);
  }

  // ------------------------------------------------------------------
  // Building the table
  // ------------------------------------------------------------------

  /** reflect(value, bits). */
  method Reflect(value: Word, bits: nat) returns (out: Word)
    requires bits <= 64
    ensures out == Reverse(value[..bits]) + Zeros(64 - bits)
  {
    out := ZERO;
    for i := 0 to bits
      invariant forall j :: 0 <= j < 64 ==>
                  out[j] == (bits - i <= j < bits && value[bits - 1 - j])
    {
      if value[i] {
        out := out[bits - 1 - i := true];
      }
    }
  }

  /** One bit of the division, most significant bit first. */
  function LeftStep(crc: Word): Word
  {
    if crc[63] then Xor(ShiftLeft(crc), POLY) else ShiftLeft(crc)
  }

  function LeftSteps(crc: Word, k: nat): Word
    decreases k
  {
    if k == 0 then crc else LeftStep(LeftSteps(crc, k - 1))
  }

  /** The same bit, on the reflected register. */
  function RightStep(crc: Word): Word
  {
    if crc[0] then Xor(ShiftRight(crc), Reverse(POLY)) else ShiftRight(crc)
  }

  function RightSteps(crc: Word, k: nat): Word
    decreases k
  {
    if k == 0 then crc else RightStep(RightSteps(crc, k - 1))
  }

  lemma {:induction false} StepReflects(crc: Word)
    ensures Reverse(LeftStep(crc)) == RightStep(Reverse(crc))
  {
    assert Reverse(ShiftLeft(crc)) == ShiftRight(Reverse(crc));
    assert Reverse(Xor(ShiftLeft(crc), POLY)) == Xor(Reverse(ShiftLeft(crc)), Reverse(POLY));
  }

  lemma {:induction false} StepsReflect(crc: Word, k: nat)
    ensures Reverse(LeftSteps(crc, k)) == RightSteps(Reverse(crc), k)
    decreases k
  {
    if k > 0 {
      StepsReflect(crc, k - 1);
      StepReflects(LeftSteps(crc, k - 1));
    }
  }

  /** The byte in the low bits of an otherwise empty word. */
  function LowByte(b: Bits): Word
    requires |b| == 8
  {
    b + Zeros(56)
  }

  /** What a table entry stands for: eight steps from the byte alone. */
  function TableEntry(n: nat): Word { RightSteps(LowByte(BitsOf(n, 8)), 8) }

  method BuildTable() returns (table: seq<Word>)
    ensures |table| == 256
    ensures forall n :: 0 <= n < 256 ==> table[n] == TableEntry(n)
  {
    hide TableEntry;
    table := [];
    var n := 0;
    while n < 256
      invariant 0 <= n <= 256 && |table| == n
      invariant forall m :: 0 <= m < n ==> table[m] == TableEntry(m)
    {
      var entry := BuildEntry(n);
      table := table + [entry];
      n := n + 1;
    }
  }

  method BuildEntry(n: nat) returns (entry: Word)
    requires n < 256
    ensures entry == TableEntry(n)
  {
    var low := LowByte(BitsOf(n, 8));
    var reflected := Reflect(low, 8);
    var crc: Word := Zeros(56) + reflected[..8];
    ghost var start := crc;
    assert start == Reverse(low);
    for k := 0 to 8
      invariant crc == LeftSteps(start, k)
    {
      crc := if crc[63] then Xor(ShiftLeft(crc), POLY) else ShiftLeft(crc);
    }
    StepsReflect(start, 8);
    assert Reverse(start) == low;
    entry := Reflect(crc, 64);
    assert entry == Reverse(crc);
  }

  // ------------------------------------------------------------------
  // The checksum, one bit at a time and one byte at a time
  // ------------------------------------------------------------------

  /** Feed one message bit into the register. */
  function BitStep(crc: Word, bit: bool): Word { RightStep(crc[0 := crc[0] != bit]) }

  function BitSteps(crc: Word, bits: Bits): Word
    decreases |bits|
  {
    if bits == [] then crc else BitSteps(BitStep(crc, bits[0]), bits[1..])
  }

  /** The bits of a message in the order the register takes them. */
  function MessageBits(data: Bytes): (r: Bits)
    ensures |r| == 8 * |data|
  {
    if data == [] then [] else ByteBits(data[0]) + MessageBits(data[1..])
  }

  lemma {:induction false} OneByte(b: byte)
    ensures MessageBits([b]) == ByteBits(b)
  {
    assert MessageBits([b]) == ByteBits(b) + MessageBits([]);
    assert ByteBits(b) + [] == ByteBits(b);
  }

  /** The checksum, bit by bit. */
  function Crc(seed: Word, data: Bytes): Word { BitSteps(seed, MessageBits(data)) }

  lemma {:induction false} BitStepsSplit(crc: Word, a: Bits, b: Bits)
    ensures BitSteps(crc, a + b) == BitSteps(BitSteps(crc, a), b)
    decreases |a|
  {
    if a == [] {
      assert a + b == b;
    } else {
      assert (a + b)[1..] == a[1..] + b;
      BitStepsSplit(BitStep(crc, a[0]), a[1..], b);
    }
  }

  lemma {:induction false} MessageBitsSplit(a: Bytes, b: Bytes)
    ensures MessageBits(a + b) == MessageBits(a) + MessageBits(b)
  {
    if a == [] {
      assert a + b == b;
    } else {
      assert (a + b)[1..] == a[1..] + b;
      MessageBitsSplit(a[1..], b);
    }
  }

  /** The checksum of a concatenation is the chained checksum of its parts. */
  lemma {:induction false} CrcChains(seed: Word, a: Bytes, b: Bytes)
    ensures Crc(seed, a + b) == Crc(Crc(seed, a), b)
  {
    MessageBitsSplit(a, b);
    BitStepsSplit(seed, MessageBits(a), MessageBits(b));
  }

  lemma {:induction false} RightStepLinear(a: Word, b: Word)
    ensures RightStep(Xor(a, b)) == Xor(RightStep(a), RightStep(b))
  {}

  function Padded(bits: Bits): Word
    requires |bits| <= 64
  {
    bits + Zeros(64 - |bits|)
  }

  lemma {:induction false} OneBitIn(crc: Word, bits: Bits)
    requires 0 < |bits| <= 64
    ensures RightStep(Xor(crc, Padded(bits))) == Xor(BitStep(crc, bits[0]), Padded(bits[1..]))
  {
    var here: Word := Padded([bits[0]]);
    var later: Word := [false] + Padded(bits)[1..];
    assert Xor(crc, Padded(bits)) == Xor(Xor(crc, here), later);
    assert crc[0 := crc[0] != bits[0]] == Xor(crc, here);
    assert RightStep(later) == Padded(bits[1..]);
    hide RightStep;
    RightStepLinear(Xor(crc, here), later);
  }

  /** Feeding bits one by one is feeding them all at once, when they fit. */
  lemma {:induction false} BitsAllAtOnce(crc: Word, bits: Bits)
    requires |bits| <= 64
    ensures BitSteps(crc, bits) == StepsFrom(Xor(crc, Padded(bits)), |bits|)
    decreases |bits|
  {
    hide RightStep;
    hide BitStep;
    if bits == [] {
      assert Xor(crc, Padded(bits)) == crc;
    } else {
      OneBitIn(crc, bits);
      BitsAllAtOnce(BitStep(crc, bits[0]), bits[1..]);
    }
  }

  /** `k` steps, counted from the front. */
  function StepsFrom(crc: Word, k: nat): Word
    decreases k
  {
    if k == 0 then crc else StepsFrom(RightStep(crc), k - 1)
  }

  lemma {:induction false} StepsFromIs(crc: Word, k: nat)
    ensures StepsFrom(crc, k) == RightSteps(crc, k)
    decreases k
  {
    if k > 0 {
      StepsFromIs(RightStep(crc), k - 1);
      StepsShift(crc, k - 1);
    }
  }

  lemma {:induction false} StepsShift(crc: Word, k: nat)
    ensures RightSteps(RightStep(crc), k) == RightSteps(crc, k + 1)
    decreases k
  {
    if k > 0 {
      StepsShift(crc, k - 1);
    }
  }

  lemma {:induction false} RightStepsLinear(a: Word, b: Word, k: nat)
    ensures RightSteps(Xor(a, b), k) == Xor(RightSteps(a, k), RightSteps(b, k))
    decreases k
  {
    if k > 0 {
      RightStepsLinear(a, b, k - 1);
      RightStepLinear(RightSteps(a, k - 1), RightSteps(b, k - 1));
    }
  }

  /** A word without low bits is merely shifted. */
  lemma {:induction false} RightStepsOfHigh(a: Word, k: nat)
    requires k <= 64 && forall i :: 0 <= i < k ==> !a[i]
    ensures RightSteps(a, k) == a[k..] + Zeros(k)
    decreases k
  {
    if k > 0 {
      RightStepsOfHigh(a, k - 1);
    }
  }

  /** One byte through the table. */
  function TableStep(crc: Word, b: byte): Word
  {
    var low := Xor(crc[..8], ByteBits(b));
    Xor(TableEntry(NatOf(low)), ShiftRight8(crc))
  }

  lemma {:induction false} TableStepIsEightBits(crc: Word, b: byte)
    ensures TableStep(crc, b) == BitSteps(crc, ByteBits(b))
  {
    hide RightSteps;
    hide StepsFrom;
    hide BitSteps;
    hide BitsOf;
    var bits := ByteBits(b);
    var low := Xor(crc[..8], bits);
    var lowWord := LowByte(low);
    var highWord: Word := Zeros(8) + crc[8..];
    BitsAllAtOnce(crc, bits);
    assert Xor(crc, Padded(bits)) == Xor(lowWord, highWord);
    StepsFromIs(Xor(lowWord, highWord), 8);
    RightStepsLinear(lowWord, highWord, 8);
    RightStepsOfHigh(highWord, 8);
    assert highWord[8..] + Zeros(8) == ShiftRight8(crc);
    BitsOfNatOf(low);
  }

  lemma {:induction false} LowIsByte(low: Bits)
    requires |low| == 8
    ensures NatOf(low) < 256
  {
    BitsOfNatOf(low);
    assert PowerOfTwo(8) == 256;
  }

  /** crc64: the table-driven loop computes the bit-by-bit checksum, for every
      input and every seed. */
  method ComputeCrc(seed: Word, data: Bytes, table: seq<Word>) returns (crc: Word)
    requires |table| == 256 && forall n :: 0 <= n < 256 ==> table[n] == TableEntry(n)
    ensures crc == Crc(seed, data)
  {
    hide BitSteps;
    hide TableEntry;
    crc := seed;
    CrcNothing(seed);
    for i := 0 to |data|
      invariant crc == Crc(seed, data[..i])
    {
      var low := Xor(crc[..8], ByteBits(data[i]));
      LowIsByte(low);
      TableStepIsEightBits(crc, data[i]);
      CrcOneMore(seed, data, i);
      crc := Xor(table[NatOf(low)], ShiftRight8(crc));
    }
    assert data[..|data|] == data;
  }

  lemma {:induction false} CrcNothing(seed: Word)
    ensures Crc(seed, []) == seed
  {}

  lemma {:induction false} CrcOneMore(seed: Word, data: Bytes, i: nat)
    requires i < |data|
    ensures Crc(seed, data[..i + 1]) == BitSteps(Crc(seed, data[..i]), ByteBits(data[i]))
  {
    hide BitSteps;
    hide ByteBits;
    assert data[..i + 1] == data[..i] + [data[i]];
    CrcChains(seed, data[..i], [data[i]]);
    OneByte(data[i]);
  }

  // ------------------------------------------------------------------
  // Division of polynomials
  // ------------------------------------------------------------------

  /** Schoolbook long division over GF(2): the remainder of a dividend, leading
      coefficient first, by x^64 plus the polynomial whose coefficients, leading
      first, are Reverse(POLY). */
  function Remainder(dividend: Bits): Bits
    decreases |dividend|
  {
    if |dividend| <= 64 then dividend
    else
      var rest := dividend[1..];
      Remainder(if dividend[0] then Xor(rest[..64], Reverse(POLY)) + rest[64..] else rest)
  }

  /** The dividend of a checksum: the message followed by 64 zeros, with the seed
      added to its first 64 coefficients. */
  function Dividend(seed: Word, message: Bits): Bits
  {
    var shifted := message + Zeros(64);
    Xor(shifted[..64], seed) + shifted[64..]
  }

  lemma {:induction false} DividendStep(crc: Word, message: Bits)
    requires message != []
    ensures var d := Dividend(crc, message);
            var rest := d[1..];
            |d| > 64 &&
            (if d[0] then Xor(rest[..64], Reverse(POLY)) + rest[64..] else rest)
            == Dividend(BitStep(crc, message[0]), message[1..])
  {
    var d := Dividend(crc, message);
    var rest := d[1..];
    var next := Dividend(BitStep(crc, message[0]), message[1..]);
    var divided := if d[0] then Xor(rest[..64], Reverse(POLY)) + rest[64..] else rest;
    var tail := message[1..] + Zeros(64);
    assert (message + Zeros(64))[1..] == tail;
    assert d[0] == (message[0] != crc[0]);
    forall i | 0 <= i < |next| ensures divided[i] == next[i] {
      if i < 63 {
        assert rest[i] == (tail[i] != crc[i + 1]);
      } else {
        assert rest[i] == tail[i];
      }
    }
  }

  /** The register after a message is the remainder of the division. */
  lemma {:induction false} CrcIsRemainder(seed: Word, message: Bits)
    ensures BitSteps(seed, message) == Remainder(Dividend(seed, message))
    decreases |message|
  {
    if message == [] {
      assert Dividend(seed, message) == seed;
    } else {
      DividendStep(seed, message);
      CrcIsRemainder(BitStep(seed, message[0]), message[1..]);
    }
  }

  // ------------------------------------------------------------------
  // What the checksum detects
  // ------------------------------------------------------------------

  /** Up to 64 bits fed into two registers lead to the same value only if the
      registers differ exactly where the bits do. */
  lemma {:induction false} ShortMessagesTold(c: Word, d: Word, x: Bits, y: Bits)
    requires |x| == |y| <= 64 && BitSteps(c, x) == BitSteps(d, y)
    ensures forall i :: 0 <= i < |x| ==> (c[i] != x[i]) == (d[i] != y[i])
    ensures forall i :: |x| <= i < 64 ==> c[i] == d[i]
    decreases |x|
  {
    if x != [] {
      var c', d' := BitStep(c, x[0]), BitStep(d, y[0]);
      ShortMessagesTold(c', d', x[1..], y[1..]);
      PolyIsOdd();
      assert c'[63] == (c[0] != x[0]) && d'[63] == (d[0] != y[0]);
      forall i | 0 < i < 64
        ensures c'[i - 1] == (c[i] != (c'[63] && Reverse(POLY)[i - 1]))
        ensures d'[i - 1] == (d[i] != (d'[63] && Reverse(POLY)[i - 1])) {}
      forall i | 0 < i < |x| ensures (c[i] != x[i]) == (d[i] != y[i]) {
        assert x[1..][i - 1] == x[i] && y[1..][i - 1] == y[i];
      }
    }
  }

  /** The same bytes never bring two different registers together. */
  lemma {:induction false} SameTailKeepsApart(c: Word, d: Word, tail: Bytes)
    requires c != d
    ensures Crc(c, tail) != Crc(d, tail)
    decreases |tail|
  {
    hide BitSteps;
    hide Crc;
    hide ByteBits;
    if tail == [] {
      CrcNothing(c);
      CrcNothing(d);
    } else {
      var bits := ByteBits(tail[0]);
      SameBitsKeepApart(c, d, bits);
      CrcFirst(c, tail);
      CrcFirst(d, tail);
      SameTailKeepsApart(BitSteps(c, bits), BitSteps(d, bits), tail[1..]);
    }
  }

  lemma {:induction false} SameBitsKeepApart(c: Word, d: Word, bits: Bits)
    requires c != d && |bits| <= 64
    ensures BitSteps(c, bits) != BitSteps(d, bits)
  {
    hide BitSteps;
    if BitSteps(c, bits) == BitSteps(d, bits) {
      ShortMessagesTold(c, d, bits, bits);
    }
  }

  lemma {:induction false} CrcFirst(seed: Word, data: Bytes)
    requires data != []
    ensures Crc(seed, data) == Crc(BitSteps(seed, ByteBits(data[0])), data[1..])
  {
    hide BitSteps;
    hide ByteBits;
    assert data == [data[0]] + data[1..];
    OneByte(data[0]);
    CrcChains(seed, [data[0]], data[1..]);
  }

  lemma {:induction false} MessageBitsInjective(a: Bytes, b: Bytes)
    requires |a| == |b| && MessageBits(a) == MessageBits(b)
    ensures a == b
  {
    if a != [] {
      assert MessageBits(a)[..8] == ByteBits(a[0]);
      assert MessageBits(b)[..8] == ByteBits(b[0]);
      ByteBitsInjective(a[0], b[0]);
      assert MessageBits(a)[8..] == MessageBits(a[1..]);
      assert MessageBits(b)[8..] == MessageBits(b[1..]);
      MessageBitsInjective(a[1..], b[1..]);
    }
  }

  lemma {:induction false} ShortChangeTold(c: Word, a: Bytes, b: Bytes)
    requires |a| == |b| <= 8 && a != b
    ensures Crc(c, a) != Crc(c, b)
  {
    hide BitSteps;
    hide MessageBits;
    if Crc(c, a) == Crc(c, b) {
      ShortMessagesTold(c, c, MessageBits(a), MessageBits(b));
      assert MessageBits(a) == MessageBits(b);
      MessageBitsInjective(a, b);
    }
  }

  /** Any change confined to eight consecutive bytes changes the checksum. */
  lemma {:induction false} BurstDetected(seed: Word, head: Bytes, a: Bytes, b: Bytes, tail: Bytes)
    requires |a| == |b| <= 8 && a != b
    ensures Crc(seed, head + a + tail) != Crc(seed, head + b + tail)
  {
    hide Crc;
    var c := Crc(seed, head);
    CrcChains(seed, head, a);
    CrcChains(seed, head, b);
    ShortChangeTold(c, a, b);
    CrcChains(seed, head + a, tail);
    CrcChains(seed, head + b, tail);
    SameTailKeepsApart(Crc(c, a), Crc(c, b), tail);
  }

  // ------------------------------------------------------------------
  // A known answer
  // ------------------------------------------------------------------

  /** The number with its `width` low bits in the opposite order, put below `high`. */
  function Mirrored(n: nat, width: nat, high: nat): nat
    decreases width
  {
    if width == 0 then high else Mirrored(n / 2, width - 1, 2 * high + n % 2)
  }

  lemma {:induction false} MirroredIsReverse(n: nat, width: nat, tail: Bits)
    ensures NatOf(Reverse(BitsOf(n, width)) + tail) == Mirrored(n, width, NatOf(tail))
    decreases width
  {
    var bits := BitsOf(n, width);
    if width == 0 {
      assert Reverse(bits) + tail == tail;
    } else {
      var bit := [n % 2 == 1];
      assert Reverse(bits) + tail == Reverse(BitsOf(n / 2, width - 1)) + (bit + tail);
      assert (bit + tail)[1..] == tail;
      MirroredIsReverse(n / 2, width - 1, bit + tail);
    }
  }

  lemma {:induction false} TwoMirrored(n: nat, width: nat, high: nat)
    requires width >= 2
    ensures Mirrored(n, width, high) == Mirrored(n / 4, width - 2, 4 * high + 2 * (n % 2) + n / 2 % 2)
  {
    assert n / 2 / 2 == n / 4;
    assert 2 * (2 * high + n % 2) + n / 2 % 2 == 4 * high + 2 * (n % 2) + n / 2 % 2;
  }

  lemma {:induction false} FourMirrored(n: nat, width: nat, high: nat)
    requires width >= 4
    ensures Mirrored(n, width, high) ==
            Mirrored(n / 16, width - 4, 16 * high + 8 * (n % 2) + 4 * (n / 2 % 2) + 2 * (n / 4 % 2) + n / 8 % 2)
  {
    hide Mirrored;
    TwoMirrored(n, width, high);
    TwoMirrored(n / 4, width - 2, 4 * high + 2 * (n % 2) + n / 2 % 2);
    assert n / 4 / 2 == n / 8 && n / 4 / 4 == n / 16;
  }

  lemma {:induction false} NoneMirrored(high: nat)
    ensures Mirrored(0, 0, high) == high
  {}

  lemma {:induction false} LowHalfMirrored()
    ensures Mirrored(0xad93d23594c935a9, 64, 0) == Mirrored(0xad93d235, 32, 0x95ac9329)
  {
    hide Mirrored;
    FourMirrored(0xad93d23594c935a9, 64, 0x0);
    FourMirrored(0xad93d23594c935a, 60, 0x9);
    FourMirrored(0xad93d23594c935, 56, 0x95);
    FourMirrored(0xad93d23594c93, 52, 0x95a);
    FourMirrored(0xad93d23594c9, 48, 0x95ac);
    FourMirrored(0xad93d23594c, 44, 0x95ac9);
    FourMirrored(0xad93d23594, 40, 0x95ac93);
    FourMirrored(0xad93d2359, 36, 0x95ac932);
  }

  lemma {:induction false} HighHalfMirrored()
    ensures Mirrored(0xad93d235, 32, 0x95ac9329) == 0x95ac9329ac4bc9b5
  {
    hide Mirrored;
    FourMirrored(0xad93d235, 32, 0x95ac9329);
    FourMirrored(0xad93d23, 28, 0x95ac9329a);
    FourMirrored(0xad93d2, 24, 0x95ac9329ac);
    FourMirrored(0xad93d, 20, 0x95ac9329ac4);
    FourMirrored(0xad93, 16, 0x95ac9329ac4b);
    FourMirrored(0xad9, 12, 0x95ac9329ac4bc);
    FourMirrored(0xad, 8, 0x95ac9329ac4bc9);
    FourMirrored(0xa, 4, 0x95ac9329ac4bc9b);
    NoneMirrored(0x95ac9329ac4bc9b5);
  }

  lemma {:induction false} ReversedPoly()
    ensures NatOf(Reverse(POLY)) == 0x95ac9329ac4bc9b5
  {
    hide BitsOf;
    hide Mirrored;
    MirroredIsReverse(0xad93d23594c935a9, 64, []);
    assert Reverse(POLY) + [] == Reverse(POLY);
    LowHalfMirrored();
    HighHalfMirrored();
  }

  lemma {:induction false} NothingIn(k: nat)
    ensures BitSteps(ZERO, Zeros(k)) == ZERO
  {
    if k > 0 {
      assert BitStep(ZERO, false) == ZERO;
      assert Zeros(k)[1..] == Zeros(k - 1);
      NothingIn(k - 1);
    }
  }

  lemma {:induction false} OneIn()
    ensures BitSteps(ZERO, [true]) == Reverse(POLY)
  {
    hide BitsOf;
    assert BitSteps(BitStep(ZERO, true), []) == BitStep(ZERO, true);
  }

  /** The checksum of the single byte 0x80 is the polynomial, lowest power on top. */
  lemma {:induction false} KnownAnswer()
    ensures NatOf(Crc(ZERO, [0x80])) == 0x95ac9329ac4bc9b5
  {
    hide NatOf;
    hide BitStep;
    hide BitSteps;
    OneByte(0x80);
    assert ByteBits(0x80) == Zeros(7) + [true];
    BitStepsSplit(ZERO, Zeros(7), [true]);
    NothingIn(7);
    OneIn();
    ReversedPoly();
  }
}
