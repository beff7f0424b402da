/** How the options of SET combine: any number of them, in any order and any
    letter case.  Whether they can stand together is a condition on pairs; when
    they can, the reply and the view do not depend on their order. */
module SetLaws {
  import opened ByteStrings
  import opened Keyspace
  import opened Commands
  import opened CommandLaws

  // ------------------------------------------------------------------
  // Options as a client spells them
  // ------------------------------------------------------------------

  datatype Choice =
    | Until(seconds: bool, absolute: bool, text: Bytes)
    | Keeping | IfNew | IfOld | WantOld
    | Other
    | Cut(seconds: bool, absolute: bool)

  /** The name of a choice: EX, PX, EXAT or PXAT for a deadline, whether its time
      follows or the line ends before it.  A word that is no name has none. */
  function NameOf(c: Choice): Bytes
  {
    match c
    case Until(seconds, absolute, _) => OptionName(seconds, absolute)
    case Cut(seconds, absolute) => OptionName(seconds, absolute)
    case Keeping => Ascii("KEEPTTL")
    case IfNew => Ascii("NX")
    case IfOld => Ascii("XX")
    case WantOld => Ascii("GET")
    case Other => []
  }

  predicate NoName(word: Bytes)
  {
    && (forall seconds, absolute :: !InAnyCase(word, OptionName(seconds, absolute)))
    && !InAnyCase(word, Ascii("KEEPTTL")) && !InAnyCase(word, Ascii("NX"))
    && !InAnyCase(word, Ascii("XX")) && !InAnyCase(word, Ascii("GET"))
  }

  predicate Spells(word: Bytes, c: Choice)
  {
    if c.Other? then NoName(word) else InAnyCase(word, NameOf(c))
  }

  /** Each word spells its choice, and only the last can lack its time. */
  predicate Spelling(words: Args, cs: seq<Choice>)
  {
    && |words| == |cs|
    && (forall i :: 0 <= i < |cs| ==> Spells(words[i], cs[i]))
    && (forall i :: 0 <= i < |cs| - 1 ==> !cs[i].Cut?)
  }

  function Tail(words: Args, cs: seq<Choice>): Args
    requires |words| == |cs|
  {
    if cs == [] then []
    else [words[0]] + (if cs[0].Until? then [cs[0].text] else []) + Tail(words[1..], cs[1..])
  }

  // ------------------------------------------------------------------
  // Names in any letter case
  // ------------------------------------------------------------------

  lemma {:induction false} NamesAreCapital()
    ensures forall seconds, absolute :: Capital(OptionName(seconds, absolute))
    ensures Capital(Ascii("KEEPTTL")) && Capital(Ascii("NX")) && Capital(Ascii("XX")) && Capital(Ascii("GET"))
  {
    hide Capital;
    hide Ascii;
    CapitalText("EX");
    CapitalText("PX");
    CapitalText("EXAT");
    CapitalText("PXAT");
    CapitalText("KEEPTTL");
    CapitalText("NX");
    CapitalText("XX");
    CapitalText("GET");
  }

  lemma {:induction false} GetOptionName()
    ensures OptionOf(Ascii("GET")) == WithOld
  {
    assert Ascii("GET")[0] == 71;
  }

  function Resolves(c: Choice): SetOption
  {
    match c
    case Until(seconds, absolute, _) => Deadline(seconds, absolute)
    case Cut(seconds, absolute) => Deadline(seconds, absolute)
    case Keeping => KeepTtl
    case IfNew => OnlyNew
    case IfOld => OnlyOld
    case WantOld => WithOld
    case Other => Unknown
  }

  lemma {:induction false} NamedOption(word: Bytes, c: Choice)
    requires !c.Other? && Spells(word, c)
    ensures OptionOf(Upper(word)) == Resolves(c)
  {
    hide OptionOf;
    hide Upper;
    hide Ascii;
    NamesAreCapital();
    AnyCaseIsUpper(word, NameOf(c));
    SameWhenCapital(NameOf(c));
    OptionNames();
    FlagNames();
    GetOptionName();
  }

  lemma {:induction false} UnnamedOption(word: Bytes)
    requires NoName(word)
    ensures OptionOf(Upper(word)) == Unknown
  {
    hide Upper;
    hide Ascii;
    hide InAnyCase;
    NamesAreCapital();
    forall seconds, absolute
      ensures Upper(word) != OptionName(seconds, absolute)
    {
      AnyCaseIsUpper(word, OptionName(seconds, absolute));
    }
    assert Upper(word) != OptionName(true, false) && Upper(word) != OptionName(false, false);
    assert Upper(word) != OptionName(true, true) && Upper(word) != OptionName(false, true);
    AnyCaseIsUpper(word, Ascii("KEEPTTL"));
    AnyCaseIsUpper(word, Ascii("NX"));
    AnyCaseIsUpper(word, Ascii("XX"));
    AnyCaseIsUpper(word, Ascii("GET"));
  }

  /** A word is read as the option it spells, in any letter case. */
  lemma {:induction false} WordIsOption(word: Bytes, c: Choice)
    requires Spells(word, c)
    ensures OptionOf(Upper(word)) == Resolves(c)
  {
    hide OptionOf;
    hide Upper;
    if c.Other? {
      UnnamedOption(word);
    } else {
      NamedOption(word, c);
    }
  }

  // ------------------------------------------------------------------
  // Which options can stand together
  // ------------------------------------------------------------------

  function Amount(c: Choice): int
    requires c.Until? && ToInt64(c.text).Some?
  {
    ToInt64(c.text).value
  }

  /** A time that reads as an integer, can be made milliseconds and, when it is
      relative, is positive. */
  predicate Usable(c: Choice)
  {
    match c
    case Until(seconds, absolute, text) =>
      && ToInt64(text).Some?
      && !(seconds && Amount(c) > MAX_SECONDS)
      && (absolute || Amount(c) > 0)
    case Other => false
    case Cut(_, _) => false
    case _ => true
  }

  /** The int64 arithmetic on the time is defined. */
  predicate Defined(c: Choice, now: nat)
  {
    c.Until? && ToInt64(c.text).Some? ==>
      || (c.seconds && Amount(c) > MAX_SECONDS)
      || (&& (c.seconds ==> Amount(c) * 1000 >= INT64_MIN)
          && Meant(c.seconds, c.absolute, Amount(c), now) <= INT64_MAX)
  }

  function Deadlined(c: Choice, now: nat): int
    requires c.Until? && Usable(c)
  {
    Meant(c.seconds, c.absolute, Amount(c), now)
  }

  /** A deadline; the moment one millisecond before the epoch reads as none. */
  predicate Binding(c: Choice, now: nat)
  {
    c.Until? && Usable(c) && Deadlined(c, now) != NO_EXPIRY
  }

  /** `b` cannot follow `a`. */
  predicate Clash(a: Choice, b: Choice, now: nat)
  {
    || ((b.Until? || b.Cut?) && (a.Keeping? || Binding(a, now)))
    || (b.Keeping? && Binding(a, now))
    || (a.IfNew? && b.IfOld?) || (a.IfOld? && b.IfNew?)
  }

  predicate Agree(cs: seq<Choice>, now: nat)
  {
    && (forall i :: 0 <= i < |cs| ==> Usable(cs[i]))
    && (forall i, j :: 0 <= i < j < |cs| ==> !Clash(cs[i], cs[j], now))
  }

  /** The last deadline given, if there is one. */
  function Ending(cs: seq<Choice>, now: nat): (at: int)
    requires forall i :: 0 <= i < |cs| ==> Usable(cs[i])
  {
    if cs == [] then NO_EXPIRY
    else
      var c := cs[|cs| - 1];
      assert Usable(c);
      if c.Until? then Deadlined(c, now) else Ending(cs[..|cs| - 1], now)
  }

  /** Among options that agree, a deadline is the only one that counts. */
  lemma {:induction false} OneEnding(cs: seq<Choice>, c: Choice, now: nat)
    requires Agree(cs, now) && c in cs && Binding(c, now)
    ensures Ending(cs, now) == Deadlined(c, now)
    ensures Keeping !in cs
  {
    var i :| 0 <= i < |cs| && cs[i] == c;
    EndsAt(cs, i, now);
  }

  lemma {:induction false} EndsAt(cs: seq<Choice>, i: nat, now: nat)
    requires forall k :: 0 <= k < |cs| ==> Usable(cs[k])
    requires i < |cs| && cs[i].Until? && forall j :: i < j < |cs| ==> !cs[j].Until?
    ensures Ending(cs, now) == Deadlined(cs[i], now)
  {
    if i < |cs| - 1 {
      EndsAt(cs[..|cs| - 1], i, now);
    }
  }

  lemma {:induction false} NoEnding(cs: seq<Choice>, now: nat)
    requires forall k :: 0 <= k < |cs| ==> Usable(cs[k]) && !cs[k].Until?
    ensures Ending(cs, now) == NO_EXPIRY
  {
    if cs != [] {
      NoEnding(cs[..|cs| - 1], now);
    }
  }

  // ------------------------------------------------------------------
  // Where the words stand
  // ------------------------------------------------------------------

  function Begun(key: Bytes, value: Bytes): Args { [Ascii("SET"), key, value] }

  function Width(c: Choice): nat { if c.Until? then 2 else 1 }

  /** Where the word of choice `k` stands after the first `k` choices. */
  function Offset(cs: seq<Choice>, k: nat): nat
    requires k <= |cs|
  {
    if k == 0 then 0 else Offset(cs, k - 1) + Width(cs[k - 1])
  }

  lemma {:induction false} OffsetShifts(cs: seq<Choice>, k: nat)
    requires 0 < k <= |cs|
    ensures Offset(cs, k) == Width(cs[0]) + Offset(cs[1..], k - 1)
  {
    if k > 1 {
      OffsetShifts(cs, k - 1);
    }
  }

  lemma {:induction false} WordAt(words: Args, cs: seq<Choice>, k: nat)
    requires |words| == |cs| && k < |cs|
    ensures var t := Tail(words, cs);
            && Offset(cs, k) + Width(cs[k]) <= |t|
            && t[Offset(cs, k)] == words[k]
            && (cs[k].Until? ==> t[Offset(cs, k) + 1] == cs[k].text)
  {
    if k > 0 {
      WordAt(words[1..], cs[1..], k - 1);
      OffsetShifts(cs, k);
    }
  }

  lemma {:induction false} TailEnds(words: Args, cs: seq<Choice>)
    requires |words| == |cs|
    ensures |Tail(words, cs)| == Offset(cs, |cs|)
  {
    if cs != [] {
      TailEnds(words[1..], cs[1..]);
      OffsetShifts(cs, |cs|);
    }
  }

  // ------------------------------------------------------------------
  // The scan gathers exactly what was asked for
  // ------------------------------------------------------------------

  function Gathered(cs: seq<Choice>, now: nat): SetOptions
    requires forall i :: 0 <= i < |cs| ==> Usable(cs[i])
  {
    SetOptions(Ending(cs, now), Keeping in cs, IfNew in cs, IfOld in cs, WantOld in cs)
  }

  /** An option cannot follow those that gathered `o`. */
  predicate Stops(o: SetOptions, c: Choice)
  {
    || ((c.Until? || c.Cut?) && (o.keepTtl || o.expireAt != NO_EXPIRY))
    || (c.Keeping? && o.expireAt != NO_EXPIRY)
    || (c.IfNew? && o.xx) || (c.IfOld? && o.nx)
  }

  function Adding(o: SetOptions, c: Choice, now: nat): SetOptions
    requires Usable(c)
  {
    match c
    case Until(_, _, _) => o.(expireAt := Deadlined(c, now))
    case Keeping => o.(keepTtl := true)
    case IfNew => o.(nx := true)
    case IfOld => o.(xx := true)
    case WantOld => o.(get := true)
  }

  lemma {:induction false} BoundWhenEnding(cs: seq<Choice>, now: nat)
    requires Agree(cs, now)
    ensures Ending(cs, now) != NO_EXPIRY <==> exists j :: 0 <= j < |cs| && Binding(cs[j], now)
  {
    if j :| 0 <= j < |cs| && Binding(cs[j], now) {
      OneEnding(cs, cs[j], now);
    } else if cs != [] {
      var last := cs[|cs| - 1];
      assert !Binding(last, now) && Usable(last);
      BoundWhenEnding(cs[..|cs| - 1], now);
    }
  }

  /** What was gathered stops an option exactly when an earlier option clashes with it. */
  lemma {:induction false} StopsAtClash(cs: seq<Choice>, k: nat, now: nat)
    requires k < |cs| && Agree(cs[..k], now)
    ensures Stops(Gathered(cs[..k], now), cs[k]) <==> exists j :: 0 <= j < k && Clash(cs[j], cs[k], now)
  {
    hide Usable;
    hide Binding;
    var before, c := cs[..k], cs[k];
    BoundWhenEnding(before, now);
    forall x | x in before
      ensures exists j :: 0 <= j < k && cs[j] == x
    {
      var j :| 0 <= j < k && before[j] == x;
      assert cs[j] == x;
    }
    if Stops(Gathered(before, now), c) {
      if Ending(before, now) != NO_EXPIRY && (c.Until? || c.Cut? || c.Keeping?) {
        var j :| 0 <= j < |before| && Binding(before[j], now);
        assert Clash(cs[j], c, now);
      } else {
        var x := if c.IfNew? then IfOld else if c.IfOld? then IfNew else Keeping;
        assert x in before;
        var j :| 0 <= j < k && cs[j] == x;
        assert Clash(cs[j], c, now);
      }
    }
    if j :| 0 <= j < k && Clash(cs[j], c, now) {
      assert before[j] == cs[j];
    }
  }

  lemma {:induction false} GatheredGrows(cs: seq<Choice>, k: nat, now: nat)
    requires k < |cs| && forall i :: 0 <= i <= k ==> Usable(cs[i])
    ensures Gathered(cs[..k + 1], now) == Adding(Gathered(cs[..k], now), cs[k], now)
  {
    var longer := cs[..k + 1];
    assert longer == cs[..k] + [cs[k]];
    assert longer[..|longer| - 1] == cs[..k];
  }

  /** What is wrong with an option that cannot be used. */
  function Fault(c: Choice): Reply
  {
    if c.Until? then if ToInt64(c.text).None? then NotInteger else InvalidExpire else SyntaxError
  }

  /** One word of the scan. */
  lemma {:induction false} ScanStep(args: Args, i: nat, o: SetOptions, c: Choice, now: nat)
    requires i < |args| && OptionOf(Upper(args[i])) == Resolves(c) && Defined(c, now)
    requires c.Until? ==> i + 1 < |args| && args[i + 1] == c.text
    requires c.Cut? ==> i + 1 == |args|
    ensures ScanOptions(args, i, o, now) ==
            if Stops(o, c) then Refused(SyntaxError)
            else if !Usable(c) then Refused(Fault(c))
            else ScanOptions(args, i + Width(c), Adding(o, c, now), now)
  {
    hide OptionOf;
    hide Upper;
    hide ToInt64;
  }

  function Scanning(words: Args, cs: seq<Choice>, key: Bytes, value: Bytes, k: nat, o: SetOptions, now: nat): Scan
    requires |words| == |cs| && k <= |cs|
  {
    ScanOptions(Begun(key, value) + Tail(words, cs), 3 + Offset(cs, k), o, now)
  }

  lemma {:induction false} ScanWord(
    words: Args, cs: seq<Choice>, key: Bytes, value: Bytes, k: nat, o: SetOptions, now: nat)
    requires Spelling(words, cs) && k < |cs| && Defined(cs[k], now)
    ensures Scanning(words, cs, key, value, k, o, now) ==
            if Stops(o, cs[k]) then Refused(SyntaxError)
            else if !Usable(cs[k]) then Refused(Fault(cs[k]))
            else Scanning(words, cs, key, value, k + 1, Adding(o, cs[k], now), now)
  {
    hide ScanOptions;
    hide OptionOf;
    hide Upper;
    hide Tail;
    hide Spells;
    hide Usable;
    hide Stops;
    hide Defined;
    hide Adding;
    hide Ascii;
    WordAt(words, cs, k);
    TailEnds(words, cs);
    WordIsOption(words[k], cs[k]);
    ScanStep(Begun(key, value) + Tail(words, cs), 3 + Offset(cs, k), o, cs[k], now);
  }

  lemma {:induction false} AgreeGrows(cs: seq<Choice>, k: nat, now: nat)
    requires k < |cs| && Agree(cs[..k], now)
    ensures Agree(cs[..k + 1], now) <==>
            Usable(cs[k]) && !exists j :: 0 <= j < k && Clash(cs[j], cs[k], now)
  {
    hide Usable;
    hide Clash;
    var longer, before := cs[..k + 1], cs[..k];
    assert forall i :: 0 <= i < k ==> longer[i] == before[i];
    assert longer[k] == cs[k];
  }

  /** One option read: it clashes with an earlier one, or cannot be used, or adds
      itself to what the earlier ones asked for. */
  lemma {:induction false} OneMoreOption(
    words: Args, cs: seq<Choice>, key: Bytes, value: Bytes, k: nat, now: nat)
    requires Spelling(words, cs) && k < |cs| && Agree(cs[..k], now) && Defined(cs[k], now)
    ensures var scan := Scanning(words, cs, key, value, k, Gathered(cs[..k], now), now);
            if exists j :: 0 <= j < k && Clash(cs[j], cs[k], now) then scan == Refused(SyntaxError)
            else if !Usable(cs[k]) then scan == Refused(Fault(cs[k]))
            else
              && Agree(cs[..k + 1], now)
              && scan == Scanning(words, cs, key, value, k + 1, Gathered(cs[..k + 1], now), now)
  {
    hide Scanning;
    hide Usable;
    hide Stops;
    hide Clash;
    hide Gathered;
    hide Spelling;
    hide Defined;
    ScanWord(words, cs, key, value, k, Gathered(cs[..k], now), now);
    StopsAtClash(cs, k, now);
    AgreeGrows(cs, k, now);
    if Agree(cs[..k + 1], now) {
      UsableSoFar(cs, k, now);
      GatheredGrows(cs, k, now);
    }
  }

  lemma {:induction false} UsableSoFar(cs: seq<Choice>, k: nat, now: nat)
    requires k < |cs| && Agree(cs[..k + 1], now)
    ensures forall i :: 0 <= i <= k ==> Usable(cs[i])
  {
    forall i | 0 <= i <= k
      ensures Usable(cs[i])
    {
      assert cs[..k + 1][i] == cs[i];
    }
  }

  /** As long as the options agree the scan has gathered what they ask for. */
  lemma {:induction false} ScanSoFar(
    words: Args, cs: seq<Choice>, key: Bytes, value: Bytes, k: nat, now: nat)
    requires Spelling(words, cs) && k <= |cs| && Agree(cs[..k], now)
    requires forall i :: 0 <= i < |cs| ==> Defined(cs[i], now)
    ensures ScanOptions(Begun(key, value) + Tail(words, cs), 3, NO_OPTIONS, now)
         == Scanning(words, cs, key, value, k, Gathered(cs[..k], now), now)
  {
    hide ScanOptions;
    hide Usable;
    hide Clash;
    hide Spelling;
    hide Defined;
    if k == 0 {
      assert cs[..0] == [];
    } else {
      AgreeBefore(cs, k, now);
      ScanSoFar(words, cs, key, value, k - 1, now);
      AgreeGrows(cs, k - 1, now);
      OneMoreOption(words, cs, key, value, k - 1, now);
    }
  }

  lemma {:induction false} AgreeBefore(cs: seq<Choice>, k: nat, now: nat)
    requires 0 < k <= |cs| && Agree(cs[..k], now)
    ensures Agree(cs[..k - 1], now)
  {
    hide Usable;
    hide Clash;
    var longer, before := cs[..k], cs[..k - 1];
    assert forall i :: 0 <= i < k - 1 ==> longer[i] == before[i];
  }

  // ------------------------------------------------------------------
  // What SET with any options does
  // ------------------------------------------------------------------

  predicate AllDefined(cs: seq<Choice>, now: nat) { forall i :: 0 <= i < |cs| ==> Defined(cs[i], now) }

  /** NX asks for a key that is not there, XX for one that is. */
  predicate Blocked(v: View, key: Bytes, cs: seq<Choice>)
  {
    (IfNew in cs && key in v) || (IfOld in cs && key !in v)
  }

  lemma {:induction false} SetScans(words: Args, cs: seq<Choice>, key: Bytes, value: Bytes, now: nat)
    requires Spelling(words, cs) && AllDefined(cs, now) && Agree(cs, now)
    ensures ScanOptions(Begun(key, value) + Tail(words, cs), 3, NO_OPTIONS, now) == Scanned(Gathered(cs, now))
  {
    hide Gathered;
    hide Tail;
    hide Spells;
    assert cs[..|cs|] == cs;
    ScanSoFar(words, cs, key, value, |cs|, now);
    TailEnds(words, cs);
  }

  /** Options that agree, in whatever order: the condition decides whether anything
      is written, the deadline or KEEPTTL until when, and GET only what is replied. */
  lemma {:induction false} SetCombines(v: View, key: Bytes, value: Bytes, words: Args, cs: seq<Choice>, now: nat)
    requires Current(v, now) && Spelling(words, cs) && AllDefined(cs, now) && Agree(cs, now)
    ensures var out := Run(v, Begun(key, value) + Tail(words, cs), now);
            var held := if key in v then Text(v[key].value) else Missing;
            var d := Ending(cs, now);
            && out.reply == (if WantOld in cs then held else if Blocked(v, key, cs) then Missing else Fine)
            && out.view == (if Blocked(v, key, cs) then v
                            else if Keeping in cs then
                              v[key := Entry(value, if key in v then v[key].deadline else None)]
                            else if d == -1 then v[key := Entry(value, None)]
                            else if d <= now then v - {key}
                            else v[key := Entry(value, Some(d))])
  {
    hide Spelling;
    hide Agree;
    hide AllDefined;
    hide Tail;
    hide VerbOf;
    hide Upper;
    hide Ascii;
    hide ScanOptions;
    hide Ending;
    CanonicalNames();
    SetScans(words, cs, key, value, now);
  }

  /** The first option that cannot be used or cannot follow the others decides the
      error, whatever comes after it, and nothing is written. */
  lemma {:induction false} SetRefuses(
    v: View, key: Bytes, value: Bytes, words: Args, cs: seq<Choice>, k: nat, now: nat)
    requires Spelling(words, cs) && AllDefined(cs, now) && k < |cs|
    requires Agree(cs[..k], now) && !Agree(cs[..k + 1], now)
    ensures var out := Run(v, Begun(key, value) + Tail(words, cs), now);
            && out.view == v && !out.dirty
            && out.reply == (if exists j :: 0 <= j < k && Clash(cs[j], cs[k], now) then SyntaxError
                             else if cs[k].Until? && ToInt64(cs[k].text).None? then NotInteger
                             else if cs[k].Until? then InvalidExpire
                             else SyntaxError)
  {
    hide Spelling;
    hide Agree;
    hide Tail;
    hide VerbOf;
    hide Upper;
    hide Ascii;
    hide ScanOptions;
    hide Clash;
    hide Gathered;
    CanonicalNames();
    ScanSoFar(words, cs, key, value, k, now);
    OneMoreOption(words, cs, key, value, k, now);
    AgreeGrows(cs, k, now);
  }

  /** SET answers with an error exactly when its options do not agree. */
  lemma {:induction false} SetAcceptsExactly(
    v: View, key: Bytes, value: Bytes, words: Args, cs: seq<Choice>, now: nat)
    requires Current(v, now) && Spelling(words, cs) && AllDefined(cs, now)
    ensures var reply := Run(v, Begun(key, value) + Tail(words, cs), now).reply;
            reply.SyntaxError? || reply.NotInteger? || reply.InvalidExpire? <==> !Agree(cs, now)
  {
    hide Spelling;
    hide AllDefined;
    hide Agree;
    hide Run;
    hide Clash;
    if Agree(cs, now) {
      SetCombines(v, key, value, words, cs, now);
    } else {
      assert cs[..|cs|] == cs;
      var k := FirstDisagreement(cs, |cs|, now);
      SetRefuses(v, key, value, words, cs, k, now);
    }
  }

  lemma {:induction false} FirstDisagreement(cs: seq<Choice>, n: nat, now: nat) returns (k: nat)
    requires n <= |cs| && !Agree(cs[..n], now)
    ensures k < n && Agree(cs[..k], now) && !Agree(cs[..k + 1], now)
  {
    k := n - 1;
    if !Agree(cs[..n - 1], now) {
      k := FirstDisagreement(cs, n - 1, now);
    }
  }
}
