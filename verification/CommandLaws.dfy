/** What the command names promise their users, stated on command lines: how the
    commands undo, observe and combine with one another. */
module CommandLaws {
  import opened ByteStrings
  import opened Keyspace
  import opened Commands
  import Glob

  // ------------------------------------------------------------------
  // Names
  // ------------------------------------------------------------------

  predicate Capital(name: Bytes) { forall i :: 0 <= i < |name| ==> 65 <= name[i] <= 90 }

  predicate InAnyCase(word: Bytes, name: Bytes)
  {
    && |word| == |name| && Capital(name)
    && forall i :: 0 <= i < |name| ==> word[i] == name[i] || word[i] == name[i] + 32
  }

  lemma {:induction false} AnyCaseIsUpper(word: Bytes, name: Bytes)
    requires Capital(name)
    ensures Upper(word) == name <==> InAnyCase(word, name)
  {
    if Upper(word) == name {
      forall i | 0 <= i < |name|
        ensures word[i] == name[i] || word[i] == name[i] + 32
      {
        assert name[i] == ToUpper(word[i]);
      }
    }
  }

  lemma {:induction false} CapitalText(s: string)
    requires forall i :: 0 <= i < |s| ==> 'A' <= s[i] <= 'Z'
    ensures Capital(Ascii(s))
  {}

  lemma {:induction false} Apart(a: string, b: string, i: nat)
    requires i < |a| && i < |b| && ToByte(a[i]) != ToByte(b[i])
    ensures Ascii(a) != Ascii(b)
  {
    assert Ascii(a)[i] != Ascii(b)[i];
  }

  lemma {:induction false} SameWhenCapital(name: Bytes)
    requires Capital(name)
    ensures Upper(name) == name
  {}

  lemma {:induction false} ReadNames()
    ensures VerbOf(Upper(Ascii("GET"))) == Get && VerbOf(Upper(Ascii("EXISTS"))) == Exists
  {
    assert Upper(Ascii("GET")) == Ascii("GET") && Upper(Ascii("EXISTS")) == Ascii("EXISTS");
    assert Ascii("GET")[0] == 71 && Ascii("SET")[0] == 83 && Ascii("DEL")[0] == 68;
    assert Ascii("EXISTS")[0] == 69 && Ascii("UNLINK")[0] == 85;
  }

  lemma {:induction false} TtlName()
    ensures VerbOf(Upper(Ascii("TTL"))) == Ttl(true)
  {
    assert Upper(Ascii("TTL")) == Ascii("TTL");
    assert Ascii("TTL")[0] == 84 && Ascii("GET")[0] == 71 && Ascii("SET")[0] == 83 && Ascii("DEL")[0] == 68;
  }

  lemma {:induction false} PttlName()
    ensures VerbOf(Upper(Ascii("PTTL"))) == Ttl(false)
  {
    hide Upper;
    hide Ascii;
    CapitalText("PTTL");
    SameWhenCapital(Ascii("PTTL"));
    Apart("PTTL", "PING", 1);
    Apart("PTTL", "ECHO", 0);
    Apart("PTTL", "TYPE", 0);
    Apart("PTTL", "KEYS", 0);
  }

  lemma {:induction false} PlainExpireName()
    ensures VerbOf(Upper(Ascii("EXPIRE"))) == Expire(true, false)
  {
    assert Upper(Ascii("EXPIRE")) == Ascii("EXPIRE");
    assert Ascii("EXPIRE")[0] == 69 && Ascii("UNLINK")[0] == 85;
    assert Ascii("EXPIRE")[2] == 80 && Ascii("EXISTS")[2] == 73;
  }

  lemma {:induction false} PexpireName()
    ensures VerbOf(Upper(Ascii("PEXPIRE"))) == Expire(false, false)
  {
    assert Upper(Ascii("PEXPIRE")) == Ascii("PEXPIRE");
    assert Ascii("PEXPIRE")[0] == 80 && Ascii("SLAVEOF")[0] == 83;
  }

  lemma {:induction false} ExpireAtNames()
    ensures VerbOf(Upper(Ascii("EXPIREAT"))) == Expire(true, true)
  {
    assert Upper(Ascii("EXPIREAT")) == Ascii("EXPIREAT");
    assert Ascii("EXPIREAT")[0] == 69 && Ascii("REPLCONF")[0] == 82;
  }

  lemma {:induction false} DelName()
    ensures VerbOf(Upper(Ascii("DEL"))) == Del
  {
    assert Upper(Ascii("DEL")) == Ascii("DEL");
    assert Ascii("DEL")[0] == 68 && Ascii("SET")[0] == 83 && Ascii("GET")[0] == 71;
  }

  lemma {:induction false} PersistName()
    ensures VerbOf(Upper(Ascii("PERSIST"))) == Persist
  {
    hide Upper;
    hide Ascii;
    CapitalText("PERSIST");
    SameWhenCapital(Ascii("PERSIST"));
    Apart("PERSIST", "SLAVEOF", 0);
    Apart("PERSIST", "PEXPIRE", 2);
  }

  lemma {:induction false} UnlinkName()
    ensures VerbOf(Upper(Ascii("UNLINK"))) == Del
  {
    hide Upper;
    CapitalText("UNLINK");
    SameWhenCapital(Ascii("UNLINK"));
  }

  lemma {:induction false} FlushallName()
    ensures VerbOf(Upper(Ascii("FLUSHALL"))) == Flush
  {
    hide Upper;
    hide Ascii;
    CapitalText("FLUSHALL");
    SameWhenCapital(Ascii("FLUSHALL"));
    Apart("FLUSHALL", "REPLCONF", 0);
    Apart("FLUSHALL", "EXPIREAT", 0);
  }

  lemma {:induction false} FlushdbName()
    ensures VerbOf(Upper(Ascii("FLUSHDB"))) == Flush
  {
    hide Upper;
    hide Ascii;
    CapitalText("FLUSHDB");
    SameWhenCapital(Ascii("FLUSHDB"));
    Apart("FLUSHDB", "SLAVEOF", 0);
    Apart("FLUSHDB", "PEXPIRE", 0);
    Apart("FLUSHDB", "PERSIST", 0);
  }

  lemma {:induction false} FourLetterNames()
    ensures VerbOf(Upper(Ascii("PING"))) == Ping && VerbOf(Upper(Ascii("ECHO"))) == Echo
    ensures VerbOf(Upper(Ascii("TYPE"))) == Type && VerbOf(Upper(Ascii("KEYS"))) == Keys
  {
    hide Upper;
    hide Ascii;
    CapitalText("PING");
    CapitalText("ECHO");
    CapitalText("TYPE");
    CapitalText("KEYS");
    SameWhenCapital(Ascii("PING"));
    SameWhenCapital(Ascii("ECHO"));
    SameWhenCapital(Ascii("TYPE"));
    SameWhenCapital(Ascii("KEYS"));
    Apart("ECHO", "PING", 0);
    Apart("TYPE", "PING", 0);
    Apart("TYPE", "ECHO", 0);
    Apart("KEYS", "PING", 0);
    Apart("KEYS", "ECHO", 0);
    Apart("KEYS", "TYPE", 0);
  }

  lemma {:induction false} DbsizeName()
    ensures VerbOf(Upper(Ascii("DBSIZE"))) == Dbsize
  {
    hide Upper;
    hide Ascii;
    CapitalText("DBSIZE");
    SameWhenCapital(Ascii("DBSIZE"));
    Apart("DBSIZE", "UNLINK", 0);
    Apart("DBSIZE", "EXISTS", 0);
    Apart("DBSIZE", "EXPIRE", 0);
  }

  lemma {:induction false} ReplicaofNames()
    ensures VerbOf(Upper(Ascii("REPLICAOF"))) == Replicaof && VerbOf(Upper(Ascii("SLAVEOF"))) == Replicaof
  {
    hide Upper;
    CapitalText("REPLICAOF");
    CapitalText("SLAVEOF");
    SameWhenCapital(Ascii("REPLICAOF"));
    SameWhenCapital(Ascii("SLAVEOF"));
  }

  lemma {:induction false} OptionNames()
    ensures OptionOf(Upper(Ascii("EX"))) == Deadline(true, false)
    ensures OptionOf(Upper(Ascii("PX"))) == Deadline(false, false)
    ensures OptionOf(Upper(Ascii("EXAT"))) == Deadline(true, true)
    ensures OptionOf(Upper(Ascii("PXAT"))) == Deadline(false, true)
  {
    assert Upper(Ascii("EX")) == Ascii("EX") && Upper(Ascii("PX")) == Ascii("PX");
    assert Upper(Ascii("EXAT")) == Ascii("EXAT") && Upper(Ascii("PXAT")) == Ascii("PXAT");
    assert Ascii("EX")[0] == 69 && Ascii("PX")[0] == 80;
    assert Ascii("EXAT")[0] == 69 && Ascii("PXAT")[0] == 80;
  }

  lemma {:induction false} FlagNames()
    ensures OptionOf(Upper(Ascii("KEEPTTL"))) == KeepTtl
    ensures OptionOf(Upper(Ascii("NX"))) == OnlyNew && OptionOf(Upper(Ascii("XX"))) == OnlyOld
  {
    assert Upper(Ascii("KEEPTTL")) == Ascii("KEEPTTL");
    assert Upper(Ascii("NX")) == Ascii("NX") && Upper(Ascii("XX")) == Ascii("XX");
    assert Ascii("NX")[0] == 78 && Ascii("XX")[0] == 88;
    assert Ascii("EX")[0] == 69 && Ascii("PX")[0] == 80;
  }

  // ------------------------------------------------------------------
  // Expiry
  // ------------------------------------------------------------------

  /** The deadline each of the four spellings means. */
  function Meant(seconds: bool, absolute: bool, n: int, now: nat): int
  {
    (if absolute then 0 else now) + (if seconds then n * 1000 else n)
  }

  function ExpireName(seconds: bool, absolute: bool): Bytes
  {
    if seconds then if absolute then Ascii("EXPIREAT") else Ascii("EXPIRE")
    else if absolute then Ascii("PEXPIREAT") else Ascii("PEXPIRE")
  }

  function OptionName(seconds: bool, absolute: bool): Bytes
  {
    if seconds then if absolute then Ascii("EXAT") else Ascii("EX")
    else if absolute then Ascii("PXAT") else Ascii("PX")
  }

  lemma {:induction false} ExpireVerb(seconds: bool, absolute: bool)
    ensures VerbOf(Upper(ExpireName(seconds, absolute))) == Expire(seconds, absolute)
  {
    hide VerbOf;
    hide Upper;
    hide Ascii;
    PlainExpireName();
    PexpireName();
    ExpireAtNames();
    CanonicalNames();
  }

  /** An integer argument is out of range for seconds when it cannot be made
      milliseconds; otherwise the deadline it means must fit, since the sum is
      undefined past 64 bits. */
  predicate Fits(seconds: bool, absolute: bool, n: int, now: nat)
  {
    && -INT64_MAX <= n <= INT64_MAX
    && ((seconds && !(-MAX_SECONDS <= n <= MAX_SECONDS)) || Meant(seconds, absolute, n, now) <= INT64_MAX)
  }

  /** All four EXPIRE commands give a live key the deadline they mean, a deadline
      already reached removes it, and nothing else changes. */
  lemma {:induction false} ExpireMeans(v: View, key: Bytes, seconds: bool, absolute: bool, n: int, now: nat)
    requires Fits(seconds, absolute, n, now)
    ensures var out := Run(v, [ExpireName(seconds, absolute), key, IntToString(n)], now);
            var d := Meant(seconds, absolute, n, now);
            if seconds && !(-MAX_SECONDS <= n <= MAX_SECONDS) then out.reply == InvalidExpire && out.view == v
            else if key !in v then out.reply == Number(0) && out.view == v
            else
              && out.reply == Number(1)
              && out.view == if d <= now then v - {key} else v[key := Entry(v[key].value, Some(d))]
  {
    hide VerbOf;
    hide Upper;
    hide ExpireName;
    hide IntToString;
    hide ToInt64;
    ExpireVerb(seconds, absolute);
    PrintedIntegerReadsBack(n);
  }

  /** A time that is not an integer is refused before the key is looked at. */
  lemma {:induction false} ExpireNeedsInteger(v: View, key: Bytes, seconds: bool, absolute: bool, text: Bytes, now: nat)
    requires ToInt64(text).None?
    ensures Run(v, [ExpireName(seconds, absolute), key, text], now) == Clean(NotInteger, v)
  {
    hide VerbOf;
    hide Upper;
    hide ExpireName;
    hide ToInt64;
    ExpireVerb(seconds, absolute);
  }

  /** SET with an expiry option stores the value until the deadline it means. A
      relative time must be positive, and the moment one millisecond before the
      epoch reads as no deadline at all. */
  lemma {:induction false} SetExpiryMeans(
    v: View, key: Bytes, value: Bytes, seconds: bool, absolute: bool, n: int, now: nat)
    requires Fits(seconds, absolute, n, now) && (seconds ==> n >= -MAX_SECONDS)
    ensures var out :=
              Run(v, [Ascii("SET"), key, value, OptionName(seconds, absolute), IntToString(n)], now);
            var d := Meant(seconds, absolute, n, now);
            if (seconds && n > MAX_SECONDS) || (!absolute && n <= 0) then
              out.reply == InvalidExpire && out.view == v
            else
              && out.reply == Fine
              && out.view == (if d == -1 then v[key := Entry(value, None)]
                              else if d <= now then v - {key}
                              else v[key := Entry(value, Some(d))])
  {
    hide VerbOf;
    hide OptionOf;
    hide Upper;
    hide Ascii;
    hide IntToString;
    hide ToInt64;
    CanonicalNames();
    OptionNames();
    PrintedIntegerReadsBack(n);
    var args := [Ascii("SET"), key, value, OptionName(seconds, absolute), IntToString(n)];
    var d := Meant(seconds, absolute, n, now);
    assert ScanOptions(args, 5, NO_OPTIONS.(expireAt := d), now) == Scanned(NO_OPTIONS.(expireAt := d));
  }

  /** TTL reads back the seconds EXPIRE was given, and PTTL the milliseconds. */
  lemma {:induction false} TtlReadsExpire(v: View, key: Bytes, n: int, now: nat)
    requires 0 < n <= MAX_SECONDS && now + n * 1000 <= INT64_MAX && key in v
    ensures var w := Run(v, [Ascii("EXPIRE"), key, IntToString(n)], now).view;
            && Run(w, [Ascii("TTL"), key], now).reply == Number(n)
            && Run(w, [Ascii("PTTL"), key], now).reply == Number(n * 1000)
  {
    hide VerbOf;
    hide Upper;
    hide Ascii;
    hide IntToString;
    hide ToInt64;
    ExpireMeans(v, key, true, false, n, now);
    TtlName();
    PttlName();
    assert (n * 1000 + 999) / 1000 == n;
  }

  /** TTL rounds up: at no time does a live key report less than it has left, or a
      whole second more. Without a deadline it reports -1, without the key -2. */
  lemma {:induction false} TtlRoundsUp(v: View, key: Bytes, now: nat)
    requires Current(v, now)
    ensures var out := Run(v, [Ascii("TTL"), key], now);
            && out.view == v && out.reply.Number?
            && (key !in v ==> out.reply.n == -2)
            && (key in v && v[key].deadline.None? ==> out.reply.n == -1)
            && (key in v && v[key].deadline.Some? ==>
                  (out.reply.n - 1) * 1000 < v[key].deadline.value - now <= out.reply.n * 1000)
  {
    hide VerbOf;
    hide Upper;
    hide Ascii;
    TtlName();
    PttlName();
    if key in v && v[key].deadline.Some? {
      var ms := v[key].deadline.value - now;
      assert ((ms + 999) / 1000 - 1) * 1000 < ms <= (ms + 999) / 1000 * 1000;
    }
  }

  /** PERSIST undoes any deadline. */
  lemma {:induction false} PersistUndoesExpire(v: View, key: Bytes, now: nat)
    requires key in v
    ensures Run(v, [Ascii("PERSIST"), key], now).view == v[key := Entry(v[key].value, None)]
  {
    hide VerbOf;
    hide Upper;
    hide Ascii;
    PersistName();
    if v[key].deadline.None? {
      assert v[key := v[key]] == v;
    }
  }

  // ------------------------------------------------------------------
  // Values
  // ------------------------------------------------------------------

  lemma {:induction false} GetReadsSet(v: View, key: Bytes, value: Bytes, now: nat)
    ensures var w := Run(v, [Ascii("SET"), key, value], now).view;
            && w == v[key := Entry(value, None)]
            && Run(w, [Ascii("GET"), key], now).reply == Text(value)
  {
    hide VerbOf;
    hide Upper;
    hide Ascii;
    CanonicalNames();
    ReadNames();
  }

  /** KEEPTTL changes the value and leaves the deadline as it was. */
  lemma {:induction false} KeepTtlKeeps(v: View, key: Bytes, value: Bytes, now: nat)
    requires Current(v, now) && key in v
    ensures Run(v, [Ascii("SET"), key, value, Ascii("KEEPTTL")], now).view
         == v[key := Entry(value, v[key].deadline)]
  {
    hide VerbOf;
    hide OptionOf;
    hide Upper;
    hide Ascii;
    CanonicalNames();
    FlagNames();
    var args := [Ascii("SET"), key, value, Ascii("KEEPTTL")];
    assert ScanOptions(args, 4, NO_OPTIONS.(keepTtl := true), now).Scanned?;
  }

  /** NX writes only what is missing, XX only what is there. */
  lemma {:induction false} ConditionalSet(v: View, key: Bytes, value: Bytes, now: nat)
    ensures Run(v, [Ascii("SET"), key, value, Ascii("NX")], now).view
         == if key in v then v else v[key := Entry(value, None)]
    ensures Run(v, [Ascii("SET"), key, value, Ascii("XX")], now).view
         == if key in v then v[key := Entry(value, None)] else v
  {
    hide VerbOf;
    hide OptionOf;
    hide Upper;
    hide Ascii;
    CanonicalNames();
    FlagNames();
    var nx := [Ascii("SET"), key, value, Ascii("NX")];
    var xx := [Ascii("SET"), key, value, Ascii("XX")];
    assert ScanOptions(nx, 4, NO_OPTIONS.(nx := true), now).Scanned?;
    assert ScanOptions(xx, 4, NO_OPTIONS.(xx := true), now).Scanned?;
  }

  /** DEL and UNLINK remove every key they name, counting each live one once. */
  lemma {:induction false} DelRemoves(v: View, unlink: bool, keys: Args, now: nat)
    requires keys != []
    ensures var out := Run(v, [Ascii(if unlink then "UNLINK" else "DEL")] + keys, now);
            && out.view == v - KeysOf(keys)
            && out.reply == Number(|KeysOf(keys) * v.Keys|)
  {
    hide VerbOf;
    hide Upper;
    hide Ascii;
    DelName();
    UnlinkName();
    NamedAfterFirst(Ascii(if unlink then "UNLINK" else "DEL"), keys);
  }

  /** FLUSHALL and FLUSHDB leave nothing, whatever arguments they are given. */
  lemma {:induction false} FlushEmpties(v: View, all: bool, rest: Args, now: nat)
    ensures var out := Run(v, [Ascii(if all then "FLUSHALL" else "FLUSHDB")] + rest, now);
            out.view == map[] && out.reply == Fine && out.dirty
  {
    hide VerbOf;
    hide Upper;
    hide Ascii;
    FlushallName();
    FlushdbName();
  }

  /** EXISTS counts every live key it names, and none of those a DEL has named. */
  lemma {:induction false} ExistsAfterDel(v: View, keys: Args, now: nat)
    requires keys != []
    ensures Run(v - KeysOf(keys), [Ascii("EXISTS")] + keys, now).reply == Number(0)
  {
    hide VerbOf;
    hide Upper;
    hide Ascii;
    hide CountPresent;
    ReadNames();
    NoneCounted(keys, v, KeysOf(keys));
    var args := [Ascii("EXISTS")] + keys;
    assert args[1..] == keys;
  }

  /** EXISTS counts a live key as often as it is named. */
  lemma {:induction false} ExistsCounts(v: View, keys: Args, now: nat)
    requires keys != []
    ensures var out := Run(v, [Ascii("EXISTS")] + keys, now);
            && out.view == v
            && out.reply == Number(|set i | 0 <= i < |keys| && keys[i] in v|)
  {
    hide VerbOf;
    hide Upper;
    hide Ascii;
    hide CountPresent;
    ReadNames();
    CountsNamings(keys, v);
    var args := [Ascii("EXISTS")] + keys;
    assert args[1..] == keys;
  }

  lemma {:induction false} CountsNamings(keys: Args, v: View)
    ensures CountPresent(keys, v) == |set i | 0 <= i < |keys| && keys[i] in v|
  {
    var all := set i | 0 <= i < |keys| && keys[i] in v;
    if keys != [] {
      var n := |keys| - 1;
      var front := keys[..n];
      CountsNamings(front, v);
      var before := set i | 0 <= i < |front| && front[i] in v;
      assert all == before + if keys[n] in v then {n} else {};
    }
  }

  function KeysOf(keys: Args): set<Bytes> { set k | k in keys }

  lemma {:induction false} NamedAfterFirst(name: Bytes, keys: Args)
    ensures KeysNamed([name] + keys) == KeysOf(keys)
  {
    var args := [name] + keys;
    forall k | k in keys
      ensures k in KeysNamed(args)
    {
      var i :| 0 <= i < |keys| && keys[i] == k;
      assert args[i + 1] == k;
    }
  }

  lemma {:induction false} NoneCounted(keys: Args, v: View, gone: set<Bytes>)
    requires forall k :: k in keys ==> k in gone
    ensures CountPresent(keys, v - gone) == 0
  {
    if keys != [] {
      NoneCounted(keys[..|keys| - 1], v, gone);
    }
  }

  // ------------------------------------------------------------------
  // Looking without touching
  // ------------------------------------------------------------------

  /** TYPE, KEYS and DBSIZE report the live keys, and change none. */
  lemma {:induction false} KeysReported(v: View, key: Bytes, now: nat)
    ensures Run(v, [Ascii("TYPE"), key], now) == Clean(Kind(key in v), v)
    ensures Run(v, [Ascii("DBSIZE")], now) == Clean(Number(|v.Keys|), v)
    ensures Run(v, [Ascii("KEYS"), [Glob.STAR]], now) == Clean(Listing(v.Keys), v)
  {
    hide VerbOf;
    hide Upper;
    hide Ascii;
    hide Glob.Matches;
    hide Glob.Tokens;
    FourLetterNames();
    DbsizeName();
    forall k | k in v
      ensures Glob.Matches(Glob.Tokens([Glob.STAR], 0), 0, k, 0)
    {
      assert [] + [Glob.STAR] == [Glob.STAR];
      Glob.PrefixPattern([], k);
    }
    assert MatchingKeys(v, [Glob.STAR]) == v.Keys;
  }

  /** KEYS with text that holds no special byte names that key if it is there. */
  lemma {:induction false} KeysOfPlainText(v: View, text: Bytes, now: nat)
    requires Glob.AllOrdinary(text)
    ensures Run(v, [Ascii("KEYS"), text], now) == Clean(Listing({text} * v.Keys), v)
  {
    hide VerbOf;
    hide Upper;
    hide Ascii;
    hide Glob.Matches;
    hide Glob.Tokens;
    FourLetterNames();
    forall k | k in v
      ensures Glob.Matches(Glob.Tokens(text, 0), 0, k, 0) <==> k == text
    {
      Glob.OrdinaryMatchesItself(text, k);
    }
    assert MatchingKeys(v, text) == {text} * v.Keys;
  }

  /** PING answers PONG or its argument, ECHO its argument. */
  lemma {:induction false} Echoed(v: View, text: Bytes, now: nat)
    ensures Run(v, [Ascii("PING")], now) == Clean(Pong, v)
    ensures Run(v, [Ascii("PING"), text], now) == Clean(Text(text), v)
    ensures Run(v, [Ascii("ECHO"), text], now) == Clean(Text(text), v)
  {
    hide VerbOf;
    hide Upper;
    hide Ascii;
    FourLetterNames();
  }

  lemma {:induction false} SameScan(a: Args, b: Args, i: nat, o: SetOptions, now: nat)
    requires 0 < i && |a| == |b| && forall k :: 0 < k < |a| ==> a[k] == b[k]
    ensures ScanOptions(a, i, o, now) == ScanOptions(b, i, o, now)
    decreases |a| - i
  {
    hide OptionOf;
    hide Upper;
    hide ToInt64;
    if i < |a| {
      match OptionOf(Upper(a[i]))
      case Deadline(seconds, absolute) =>
        if i + 1 < |a| && ToInt64(a[i + 1]).Some? {
          var d := SetDeadline(seconds, absolute, ToInt64(a[i + 1]).value, now);
          if d.At? {
            SameScan(a, b, i + 2, o.(expireAt := d.ms), now);
          }
        }
      case KeepTtl => SameScan(a, b, i + 1, o.(keepTtl := true), now);
      case OnlyNew => SameScan(a, b, i + 1, o.(nx := true), now);
      case OnlyOld => SameScan(a, b, i + 1, o.(xx := true), now);
      case WithOld => SameScan(a, b, i + 1, o.(get := true), now);
      case Unknown =>
    }
  }

  predicate SameArguments(a: Args, b: Args) { |a| == |b| > 0 && forall k :: 0 < k < |a| ==> a[k] == b[k] }

  predicate SameEffect(a: Outcome, b: Outcome) { a.reply == b.reply && a.dirty == b.dirty && a.view == b.view }

  lemma {:induction false} SameSet(v: View, a: Args, b: Args, now: nat)
    requires SameArguments(a, b)
    ensures RunSet(v, a, now) == RunSet(v, b, now)
  {
    hide ScanOptions;
    SameScan(a, b, 3, NO_OPTIONS, now);
  }

  lemma {:induction false} SameDel(v: View, a: Args, b: Args)
    requires SameArguments(a, b)
    ensures SameEffect(RunDel(v, a), RunDel(v, b))
  {
    assert KeysNamed(a) == KeysNamed(b);
  }

  lemma {:induction false} SameMoves(v: View, a: Args, b: Args, seconds: bool, absolute: bool, now: nat)
    requires SameArguments(a, b)
    ensures SameEffect(RunExpire(v, a, seconds, absolute, now), RunExpire(v, b, seconds, absolute, now))
    ensures SameEffect(RunPersist(v, a, now), RunPersist(v, b, now))
  {
    hide ToInt64;
  }

  lemma {:induction false} SameRead(v: View, a: Args, b: Args, verb: Verb, now: nat)
    requires SameArguments(a, b)
    requires verb.Get? || verb.Exists? || verb.Type? || verb.Keys? || verb.Ttl? || verb.Dbsize?
    ensures RunRead(v, a, verb, now) == RunRead(v, b, verb, now)
  {
    hide CountPresent;
    hide MatchingKeys;
    assert a[1..] == b[1..];
  }

  lemma {:induction false} SameRole(a: Args, b: Args, isReplica: bool)
    requires SameArguments(a, b) && Upper(a[0]) == Upper(b[0])
    ensures RunReplicaof(a) == RunReplicaof(b) && RoleAfter(a, isReplica) == RoleAfter(b, isReplica)
  {
    hide VerbOf;
    hide Upper;
    hide ToInt64;
    hide Ascii;
  }

  lemma {:induction false} SameRun(v: View, a: Args, b: Args, now: nat)
    requires SameArguments(a, b) && Upper(a[0]) == Upper(b[0])
    ensures SameEffect(Run(v, a, now), Run(v, b, now))
  {
    hide VerbOf;
    hide Upper;
    hide RunSet;
    hide RunDel;
    hide RunExpire;
    hide RunPersist;
    hide RunRead;
    hide RunReplicaof;
    var verb := VerbOf(Upper(a[0]));
    match verb
    case Set => SameSet(v, a, b, now);
    case Del => SameDel(v, a, b);
    case Expire(seconds, absolute) => SameMoves(v, a, b, seconds, absolute, now);
    case Persist => SameMoves(v, a, b, true, true, now);
    case Replicaof => SameRole(a, b, false);
    case Get => SameRead(v, a, b, verb, now);
    case Exists => SameRead(v, a, b, verb, now);
    case Type => SameRead(v, a, b, verb, now);
    case Keys => SameRead(v, a, b, verb, now);
    case Ttl(_) => SameRead(v, a, b, verb, now);
    case Dbsize => SameRead(v, a, b, verb, now);
    case _ =>
  }

  /** The letter case of a command's name is nothing to it: not to what it does, nor
      to whether a replica refuses it, nor to the role it leaves the server in. */
  lemma {:induction false} NameInAnyCase(
    v: View, word: Bytes, name: Bytes, rest: Args, isReplica: bool, now: nat)
    requires InAnyCase(word, name)
    ensures SameEffect(RunForClient(v, [word] + rest, now, isReplica), RunForClient(v, [name] + rest, now, isReplica))
    ensures RoleAfter([word] + rest, isReplica) == RoleAfter([name] + rest, isReplica)
  {
    hide Upper;
    hide IsWriteCommand;
    hide Run;
    hide RoleAfter;
    AnyCaseIsUpper(word, name);
    SameWhenCapital(name);
    SameRun(v, [word] + rest, [name] + rest, now);
    SameRole([word] + rest, [name] + rest, isReplica);
  }

  // ------------------------------------------------------------------
  // How many arguments each takes
  // ------------------------------------------------------------------

  const ONE_ARGUMENT: set<string> := {"GET", "TYPE", "KEYS", "TTL", "PTTL", "PERSIST", "ECHO"}
  const TWO_ARGUMENTS: set<string> := {"EXPIRE", "PEXPIRE", "EXPIREAT", "PEXPIREAT", "REPLICAOF", "SLAVEOF"}
  const SOME_ARGUMENTS: set<string> := {"DEL", "UNLINK", "EXISTS"}
  const OTHERS: set<string> := {"SET", "PING", "DBSIZE"}

  predicate Takes(name: string, n: nat)
  {
    if name in ONE_ARGUMENT then n == 1
    else if name in TWO_ARGUMENTS then n == 2
    else if name in SOME_ARGUMENTS then n >= 1
    else if name == "SET" then n >= 2
    else if name == "PING" then n <= 1
    else n == 0
  }

  lemma {:induction false} ScanErrors(args: Args, i: nat, o: SetOptions, now: nat)
    requires ScanOptions(args, i, o, now).Refused?
    ensures var reply := ScanOptions(args, i, o, now).reply;
            reply.SyntaxError? || reply.NotInteger? || reply.InvalidExpire?
    decreases |args| - i
  {
    hide OptionOf;
    hide Upper;
    hide ToInt64;
    if i < |args| {
      match OptionOf(Upper(args[i]))
      case Deadline(seconds, absolute) =>
        if i + 1 < |args| && ToInt64(args[i + 1]).Some? {
          var d := SetDeadline(seconds, absolute, ToInt64(args[i + 1]).value, now);
          if d.At? && o.expireAt == NO_EXPIRY && !o.keepTtl {
            ScanErrors(args, i + 2, o.(expireAt := d.ms), now);
          }
        }
      case KeepTtl => if o.expireAt == NO_EXPIRY { ScanErrors(args, i + 1, o.(keepTtl := true), now); }
      case OnlyNew => if !o.xx { ScanErrors(args, i + 1, o.(nx := true), now); }
      case OnlyOld => if !o.nx { ScanErrors(args, i + 1, o.(xx := true), now); }
      case WithOld => ScanErrors(args, i + 1, o.(get := true), now);
      case Unknown =>
    }
  }

  predicate Counted(verb: Verb, n: nat)
  {
    match verb
    case Del => n >= 1
    case Exists => n >= 1
    case Set => n >= 2
    case Expire(_, _) => n == 2
    case Replicaof => n == 2
    case Ping => n <= 1
    case Dbsize => n == 0
    case _ => n == 1
  }

  lemma {:induction false} VerbArity(v: View, args: Args, now: nat)
    requires args != []
    requires var verb := VerbOf(Upper(args[0]));
             !verb.Flush? && !verb.Replconf? && !verb.Psync? && !verb.NoKeyspace?
    ensures var out := Run(v, args, now);
            var right := Counted(VerbOf(Upper(args[0])), |args| - 1);
            && (out.reply == WrongArity <==> !right)
            && (!right ==> out.view == v && !out.dirty)
  {
    hide VerbOf;
    hide Upper;
    hide Ascii;
    hide ScanOptions;
    hide ToInt64;
    hide MatchingKeys;
    hide CountPresent;
    hide KeysNamed;
    if |args| >= 3 && ScanOptions(args, 3, NO_OPTIONS, now).Refused? {
      ScanErrors(args, 3, NO_OPTIONS, now);
    }
  }

  predicate TakesAsNamed(name: string, n: nat)
  {
    var verb := VerbOf(Upper(Ascii(name)));
    && !verb.Flush? && !verb.Replconf? && !verb.Psync? && !verb.NoKeyspace?
    && (Counted(verb, n) <==> Takes(name, n))
  }

  lemma {:induction false} OneArgument(name: string, n: nat)
    requires name in ONE_ARGUMENT
    ensures TakesAsNamed(name, n)
  {
    hide VerbOf;
    hide Upper;
    hide Ascii;
    ReadNames();
    FourLetterNames();
    TtlName();
    PttlName();
    PersistName();
  }

  lemma {:induction false} TwoArguments(name: string, n: nat)
    requires name in TWO_ARGUMENTS
    ensures TakesAsNamed(name, n)
  {
    hide VerbOf;
    hide Upper;
    hide Ascii;
    PlainExpireName();
    PexpireName();
    ExpireAtNames();
    CanonicalNames();
    ReplicaofNames();
  }

  lemma {:induction false} OtherArguments(name: string, n: nat)
    requires name in SOME_ARGUMENTS || name in OTHERS
    ensures TakesAsNamed(name, n)
  {
    hide VerbOf;
    hide Upper;
    hide Ascii;
    ReadNames();
    CanonicalNames();
    FourLetterNames();
    DelName();
    UnlinkName();
    DbsizeName();
  }

  /** A command given the wrong number of arguments says so and does nothing, and
      only then does it say so. */
  lemma {:induction false} ArityExactly(v: View, name: string, rest: Args, now: nat)
    requires name in ONE_ARGUMENT || name in TWO_ARGUMENTS || name in SOME_ARGUMENTS || name in OTHERS
    ensures var out := Run(v, [Ascii(name)] + rest, now);
            && (out.reply == WrongArity <==> !Takes(name, |rest|))
            && (!Takes(name, |rest|) ==> out.view == v && !out.dirty)
  {
    hide VerbOf;
    hide Upper;
    hide Ascii;
    hide Run;
    hide Takes;
    hide Counted;
    if name in ONE_ARGUMENT {
      OneArgument(name, |rest|);
    } else if name in TWO_ARGUMENTS {
      TwoArguments(name, |rest|);
    } else {
      OtherArguments(name, |rest|);
    }
    VerbArity(v, [Ascii(name)] + rest, now);
  }

  // ------------------------------------------------------------------
  // Roles
  // ------------------------------------------------------------------

  /** REPLICAOF with a host and a number for a port: ports 1 to 65535 make the server
      a replica, every other number is refused. */
  lemma {:induction false} ReplicaofPort(v: View, slave: bool, host: Bytes, port: int, isReplica: bool, now: nat)
    ensures var args := [Ascii(if slave then "SLAVEOF" else "REPLICAOF"), host, IntToString(port)];
            if 1 <= port <= 65535 then Run(v, args, now) == Clean(Fine, v) && RoleAfter(args, isReplica)
            else Run(v, args, now) == Clean(InvalidPort, v) && RoleAfter(args, isReplica) == isReplica
  {
    hide VerbOf;
    hide Upper;
    hide Ascii;
    hide IntToString;
    hide ToInt64;
    ReplicaofNames();
    PrintedIntegerReads(port);
    NumberIsNotOne(port);
  }

  lemma {:induction false} NumberIsNotOne(n: int)
    ensures Upper(IntToString(n)) != Ascii("ONE")
  {
    var text := IntToString(n);
    assert IsDigit(text[0]) || text[0] == MINUS;
    assert Ascii("ONE")[0] == 79;
  }

  /** REPLICAOF NO ONE, in any letter case, makes a replica a master again. */
  lemma {:induction false} NoOnePromotes(v: View, slave: bool, no: Bytes, one: Bytes, isReplica: bool, now: nat)
    requires InAnyCase(no, Ascii("NO")) && InAnyCase(one, Ascii("ONE"))
    ensures var args := [Ascii(if slave then "SLAVEOF" else "REPLICAOF"), no, one];
            Run(v, args, now) == Clean(Fine, v) && !RoleAfter(args, isReplica)
  {
    hide VerbOf;
    hide Upper;
    hide Ascii;
    hide InAnyCase;
    ReplicaofNames();
    CapitalText("NO");
    CapitalText("ONE");
    AnyCaseIsUpper(no, Ascii("NO"));
    AnyCaseIsUpper(one, Ascii("ONE"));
  }
}
