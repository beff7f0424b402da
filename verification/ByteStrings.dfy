/** Byte strings, the C-locale character classes and the decimal integers that
    requests, log records and replication headers are written with. */
module ByteStrings {

  datatype Option<+T> = None | Some(value: T)

  newtype byte = b: int | 0 <= b < 256
  type Bytes = seq<byte>
  type Args = seq<Bytes>

  const CR: byte := 13
  const LF: byte := 10
  const CRLF: Bytes := [CR, LF]
  const MINUS: byte := 45
  const PLUS: byte := 43
  const SPACE: byte := 32

  const INT64_MAX: int := 0x7FFF_FFFF_FFFF_FFFF
  const INT64_MIN: int := -0x8000_0000_0000_0000

  predicate FitsInt64(n: int) { INT64_MIN <= n <= INT64_MAX }

  function ToByte(c: char): byte { (c as int % 256) as byte }

  function Ascii(s: string): (r: Bytes)
    ensures |r| == |s|
  {
    seq(|s|, i requires 0 <= i < |s| => ToByte(s[i]))
  }

  function Concat(parts: seq<Bytes>): Bytes
  {
    if parts == [] then [] else parts[0] + Concat(parts[1..])
  }

  lemma {:induction false} ConcatSplit(a: seq<Bytes>, b: seq<Bytes>)
    ensures Concat(a + b) == Concat(a) + Concat(b)
  {
    if a == [] {
      assert a + b == b;
    } else {
      assert (a + b)[1..] == a[1..] + b;
      ConcatSplit(a[1..], b);
    }
  }

  lemma {:induction false} ConcatOne(x: Bytes)
    ensures Concat([x]) == x
  {
    assert Concat([x]) == x + Concat([]);
  }

  // ------------------------------------------------------------------
  // Character classes of the C locale
  // ------------------------------------------------------------------

  predicate IsDigit(b: byte) { 48 <= b <= 57 }

  predicate IsSpace(b: byte) { 9 <= b <= 13 || b == SPACE }

  function ToUpper(b: byte): byte { if 97 <= b <= 122 then b - 32 else b }

  function Upper(s: Bytes): (r: Bytes)
    ensures |r| == |s|
    ensures forall i :: 0 <= i < |s| ==> r[i] == ToUpper(s[i])
  {
    seq(|s|, i requires 0 <= i < |s| => ToUpper(s[i]))
  }

  // ------------------------------------------------------------------
  // Decimal numbers
  // ------------------------------------------------------------------

  function DigitValue(b: byte): nat
    requires IsDigit(b)
  {
    b as int - 48
  }

  function DigitByte(d: nat): byte
    requires d < 10
  {
    (d + 48) as byte
  }

  predicate AllDigits(s: Bytes) { forall i :: 0 <= i < |s| ==> IsDigit(s[i]) }

  /** The number a digit string denotes, most significant digit first. */
  function DecimalValue(s: Bytes): nat
    requires AllDigits(s)
  {
    if s == [] then 0 else DecimalValue(s[..|s| - 1]) * 10 + DigitValue(s[|s| - 1])
  }

  /** std::to_string of a non-negative number. */
  function Digits(n: nat): (s: Bytes)
    ensures s != [] && AllDigits(s)
    ensures DecimalValue(s) == n
  {
    if n < 10 then [DigitByte(n)]
    else
      var front := Digits(n / 10);
      var s := front + [DigitByte(n % 10)];
      assert s[..|s| - 1] == front;
      s
  }

  function PowerOfTen(k: nat): (p: nat)
    ensures p >= 1
  {
    if k == 0 then 1 else 10 * PowerOfTen(k - 1)
  }

  lemma {:induction false} DigitsShort(n: nat, k: nat)
    requires k >= 1 && n < PowerOfTen(k)
    ensures |Digits(n)| <= k
  {
    if n >= 10 {
      assert k >= 2;
      DigitsShort(n / 10, k - 1);
    }
  }

  lemma {:induction false} PowerOfTen19()
    ensures PowerOfTen(10) == 10_000_000_000
    ensures PowerOfTen(19) == 10_000_000_000_000_000_000
  {
    assert PowerOfTen(4) == 10_000;
    assert PowerOfTen(7) == 10_000_000;
    assert PowerOfTen(10) == 10_000_000_000;
    assert PowerOfTen(13) == 10_000_000_000_000;
    assert PowerOfTen(16) == 10_000_000_000_000_000;
  }

  /** std::to_string of a signed number. */
  function IntToString(n: int): Bytes
  {
    if n < 0 then [MINUS] + Digits(-n) else Digits(n)
  }

  /** What parse_int accepts: an optional sign, then at least one digit, with a
      magnitude that fits in int64.  The magnitude of INT64_MIN does not. */
  function ParseInt(text: Bytes): (r: Option<int>)
    ensures r.Some? ==> -INT64_MAX <= r.value <= INT64_MAX
  {
    var signed := text != [] && (text[0] == MINUS || text[0] == PLUS);
    var body := if signed then text[1..] else text;
    if body == [] || !AllDigits(body) || DecimalValue(body) > INT64_MAX then None
    else
      var magnitude: int := DecimalValue(body);
      Some(if text[0] == MINUS then -magnitude else magnitude)
  }

  lemma {:induction false} DecimalValueGrows(s: Bytes, i: nat)
    requires AllDigits(s) && i <= |s|
    ensures DecimalValue(s[..i]) <= DecimalValue(s)
  {
    if i < |s| {
      assert s[..|s| - 1][..i] == s[..i];
      DecimalValueGrows(s[..|s| - 1], i);
    } else {
      assert s[..i] == s;
    }
  }

  /** The digit loop that parse_int and to_int64 share: accumulate, refusing to
      step past INT64_MAX. */
  method ParseMagnitude(body: Bytes) returns (r: Option<int>)
    ensures r == if AllDigits(body) && DecimalValue(body) <= INT64_MAX
                 then Some(DecimalValue(body)) else None
  {
    var value: int := 0;
    var i := 0;
    while i < |body|
      invariant 0 <= i <= |body|
      invariant AllDigits(body[..i])
      invariant 0 <= value == DecimalValue(body[..i]) <= INT64_MAX
    {
      if !IsDigit(body[i]) {
        return None;
      }
      var digit := DigitValue(body[i]);
      assert body[..i + 1][..i] == body[..i];
      if value > (INT64_MAX - digit) / 10 {
        if AllDigits(body) {
          DecimalValueGrows(body, i + 1);
        }
        return None;
      }
      value := value * 10 + digit;
      i := i + 1;
    }
    assert body[..i] == body;
    r := Some(value);
  }

  method ParseIntLoop(text: Bytes) returns (r: Option<int>)
    ensures r == ParseInt(text)
  {
    if text == [] {
      return None;
    }
    var i := 0;
    var negative := false;
    if text[0] == MINUS || text[0] == PLUS {
      negative := text[0] == MINUS;
      i := 1;
      if |text| == 1 {
        return None;
      }
    }
    r := ParseMagnitude(text[i..]);
    if r.Some? && negative {
      r := Some(-r.value);
    }
  }

  /** to_int64 additionally refuses anything longer than twenty bytes. */
  function ToInt64(s: Bytes): (r: Option<int>)
    ensures r.Some? ==> -INT64_MAX <= r.value <= INT64_MAX
  {
    if |s| > 20 then None else ParseInt(s)
  }

  method ToInt64Loop(s: Bytes) returns (r: Option<int>)
    ensures r == ToInt64(s)
  {
    if s == [] || |s| > 20 {
      return None;
    }
    var i := if s[0] == MINUS || s[0] == PLUS then 1 else 0;
    if i == |s| {
      return None;
    }
    r := ParseMagnitude(s[i..]);
    if r.Some? && s[0] == MINUS {
      r := Some(-r.value);
    }
  }

  /** A printed integer reads back as itself, unless it is INT64_MIN, whose
      magnitude the reader refuses. */
  lemma {:induction false} PrintedIntegerReadsBack(n: int)
    requires FitsInt64(n)
    ensures ToInt64(IntToString(n)) == Some(n) <==> n != INT64_MIN
  {
    var magnitude := if n < 0 then -n else n;
    var digits := Digits(magnitude);
    PowerOfTen19();
    DigitsShort(magnitude, 19);
    assert IsDigit(digits[0]);
    if n < 0 {
      assert IntToString(n)[1..] == digits;
    }
  }

  lemma {:induction false} DigitsParse(n: nat)
    requires n <= INT64_MAX
    ensures ParseInt(Digits(n)) == Some(n)
  {
    assert IsDigit(Digits(n)[0]);
  }

  // ------------------------------------------------------------------
  // Finding the end of a line
  // ------------------------------------------------------------------

  predicate CrlfAt(s: Bytes, i: int) { 0 <= i && i + 2 <= |s| && s[i] == CR && s[i + 1] == LF }

  /** string_view::find("\r\n", from): the first occurrence at or after `from`. */
  function FindCrlf(s: Bytes, from: nat): (r: Option<nat>)
    ensures r.Some? ==> from <= r.value && CrlfAt(s, r.value)
    ensures r.Some? ==> forall i :: from <= i < r.value ==> !CrlfAt(s, i)
    ensures r.None? ==> forall i :: from <= i ==> !CrlfAt(s, i)
    decreases |s| - from
  {
    if from + 2 > |s| then None
    else if CrlfAt(s, from) then Some(from)
    else FindCrlf(s, from + 1)
  }

  /** The first occurrence is determined by being one with none before it. */
  lemma {:induction false} FindCrlfIs(s: Bytes, from: nat, at: nat)
    requires from <= at && CrlfAt(s, at)
    requires forall i :: from <= i < at ==> s[i] != CR
    ensures FindCrlf(s, from) == Some(at)
  {
    assert FindCrlf(s, from).Some?;
  }

  function Noughts(k: nat): (s: Bytes)
    ensures |s| == k && forall i :: 0 <= i < k ==> s[i] == 48
  {
    seq(k, _ => 48 as byte)
  }

  /** Leading noughts do not matter. */
  lemma {:induction false} NoughtsAddNothing(k: nat, digits: Bytes)
    requires AllDigits(digits)
    ensures AllDigits(Noughts(k) + digits) && DecimalValue(Noughts(k) + digits) == DecimalValue(digits)
    decreases |digits|, k
  {
    var all := Noughts(k) + digits;
    if digits != [] {
      assert all[..|all| - 1] == Noughts(k) + digits[..|digits| - 1];
      NoughtsAddNothing(k, digits[..|digits| - 1]);
    } else if k > 0 {
      assert all[..|all| - 1] == Noughts(k - 1) + digits;
      NoughtsAddNothing(k - 1, digits);
    }
  }

  /** The ways of writing a number: a sign, noughts and the digits of its magnitude. */
  function NumberText(sign: Bytes, k: nat, magnitude: nat): Bytes { sign + (Noughts(k) + Digits(magnitude)) }

  predicate Sign(sign: Bytes) { sign == [] || sign == [PLUS] || sign == [MINUS] }

  lemma {:induction false} SignedDigitsRead(sign: Bytes, body: Bytes)
    requires Sign(sign) && body != [] && AllDigits(body)
    ensures var value: int := DecimalValue(body);
            ParseInt(sign + body) == if value > INT64_MAX then None else Some(if sign == [MINUS] then -value else value)
  {
    hide DecimalValue;
    var text := sign + body;
    assert IsDigit(body[0]);
    if sign == [] {
      assert text == body;
    } else {
      assert text[1..] == body;
    }
  }

  /** Every way of writing a number of 63 bits reads as that number: no sign and a plus
      alike, a minus as its negative. */
  lemma {:induction false} NumberTextReads(sign: Bytes, k: nat, magnitude: nat)
    requires Sign(sign)
    ensures var value: int := magnitude;
            ParseInt(NumberText(sign, k, magnitude)) ==
            if value > INT64_MAX then None else Some(if sign == [MINUS] then -value else value)
  {
    hide Digits;
    hide ParseInt;
    hide DecimalValue;
    NoughtsAddNothing(k, Digits(magnitude));
    SignedDigitsRead(sign, Noughts(k) + Digits(magnitude));
  }

  /** An argument is read the same way, up to twenty bytes of it. */
  lemma {:induction false} ArgumentReads(sign: Bytes, k: nat, magnitude: nat)
    requires Sign(sign)
    ensures var text, value: int := NumberText(sign, k, magnitude), magnitude;
            ToInt64(text) == if |text| > 20 || value > INT64_MAX then None
                             else Some(if sign == [MINUS] then -value else value)
  {
    hide NumberText;
    hide ParseInt;
    NumberTextReads(sign, k, magnitude);
  }

  /** The printed form of an integer reads back exactly when its magnitude has 63 bits. */
  lemma {:induction false} PrintedIntegerReads(n: int)
    ensures ToInt64(IntToString(n)) == if -INT64_MAX <= n <= INT64_MAX then Some(n) else None
  {
    hide ToInt64;
    hide Digits;
    var magnitude := if n < 0 then -n else n;
    var sign := if n < 0 then [MINUS] else [];
    assert NumberText(sign, 0, magnitude) == IntToString(n);
    ArgumentReads(sign, 0, magnitude);
    if -INT64_MAX <= n <= INT64_MAX {
      PrintedIntegerReadsBack(n);
    }
  }

  /** Digits are noughts in front of the digits of their value, or noughts alone. */
  lemma {:induction false} DigitsAreText(s: Bytes) returns (k: nat)
    requires AllDigits(s) && s != []
    ensures s == Noughts(k) + Digits(DecimalValue(s))
    decreases |s|
  {
    var front, last := s[..|s| - 1], s[|s| - 1];
    if front == [] {
      k := 0;
      assert DecimalValue(s) == DigitValue(last);
      assert s == [DigitByte(DigitValue(last))];
      assert Noughts(0) + Digits(DecimalValue(s)) == s;
    } else {
      k := DigitsAreText(front);
      var n := DecimalValue(front);
      if n == 0 {
        assert Digits(0) == [48];
        assert front == Noughts(k + 1);
        k := k + 1;
        assert s == Noughts(k) + Digits(DecimalValue(s));
      } else {
        assert DecimalValue(s) / 10 == n && DecimalValue(s) % 10 == DigitValue(last);
        assert Digits(DecimalValue(s)) == Digits(n) + [last];
        assert s == Noughts(k) + (Digits(n) + [last]);
      }
    }
  }

  /** Nothing else reads as a number. */
  lemma {:induction false} OnlyNumberTextReads(text: Bytes) returns (sign: Bytes, k: nat)
    requires ParseInt(text).Some?
    ensures Sign(sign)
    ensures var n := ParseInt(text).value;
            text == NumberText(sign, k, if n < 0 then -n else n)
  {
    hide Digits;
    hide DecimalValue;
    var signed := text[0] == MINUS || text[0] == PLUS;
    var body := if signed then text[1..] else text;
    sign := if signed then [text[0]] else [];
    k := DigitsAreText(body);
    assert text == sign + body;
  }

  // ------------------------------------------------------------------
  // Where a string stands in a longer one
  // ------------------------------------------------------------------

  /** `x` stands in `input` at `pos`. */
  predicate At(input: Bytes, pos: nat, x: Bytes)
  {
    pos + |x| <= |input| && input[pos..pos + |x|] == x
  }

  lemma {:induction false} AtParts(input: Bytes, pos: nat, x: Bytes, y: Bytes)
    requires At(input, pos, x + y)
    ensures At(input, pos, x) && At(input, pos + |x|, y)
  {
    var whole := input[pos..pos + |x + y|];
    assert input[pos..pos + |x|] == whole[..|x|] == x;
    assert input[pos + |x|..pos + |x| + |y|] == whole[|x|..] == y;
  }

  lemma {:induction false} JoinedAt(x: Bytes, y: Bytes)
    ensures At(x + y, 0, x) && At(x + y, |x|, y)
  {
    assert (x + y)[0..|x|] == x && (x + y)[|x|..|x| + |y|] == y;
  }

  lemma {:induction false} AtJoin(input: Bytes, pos: nat, x: Bytes, y: Bytes)
    requires At(input, pos, x) && At(input, pos + |x|, y)
    ensures At(input, pos, x + y)
  {
    assert input[pos..pos + |x + y|] == input[pos..pos + |x|] + input[pos + |x|..pos + |x| + |y|];
  }

  lemma {:induction false} AtIndex(input: Bytes, pos: nat, x: Bytes, k: nat)
    requires At(input, pos, x) && k < |x|
    ensures pos + k < |input| && input[pos + k] == x[k]
  {
    assert input[pos + k] == input[pos..pos + |x|][k];
  }

  /** `input` ends strictly inside an `x` that starts at `pos`. */
  predicate CutAt(input: Bytes, pos: nat, x: Bytes)
  {
    pos <= |input| < pos + |x| && input[pos..] == x[..|input| - pos]
  }

  lemma {:induction false} CutParts(input: Bytes, pos: nat, x: Bytes, y: Bytes)
    requires CutAt(input, pos, x + y)
    ensures CutAt(input, pos, x) || (At(input, pos, x) && CutAt(input, pos + |x|, y))
  {
    var n := |input| - pos;
    var whole := input[pos..];
    if n < |x| {
      assert (x + y)[..n] == x[..n];
    } else {
      assert input[pos..pos + |x|] == whole[..|x|] == x;
      assert input[pos + |x|..] == whole[|x|..] == y[..n - |x|];
    }
  }

  // ------------------------------------------------------------------
  // Products, kept folded where only their growth matters
  // ------------------------------------------------------------------

  function Times(a: nat, width: nat): nat { a * width }

  lemma {:induction false} Scaled(a: nat, b: nat, width: nat)
    requires a <= b
    ensures Times(a, width) <= Times(b, width)
    ensures Times(a + 1, width) == Times(a, width) + width
    ensures Times(0, width) == 0
    ensures width == 0 ==> Times(a, width) == 0
  {}
}
