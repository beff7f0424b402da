/** Commands and their canonical form.  A command is specified by what it does
    to the view; one that changed the keyspace also says what to log and stream:
    a write with absolute deadlines that means the same when run later. */
module Commands {
  import opened ByteStrings
  import opened Keyspace
  import opened Resp
  import Glob

  // ------------------------------------------------------------------
  // Command names
  // ------------------------------------------------------------------

  datatype Verb =
    | Replconf | Psync | Replicaof
    | Ping | Echo | Set | Get | Del | Exists | Type | Keys
    | Expire(seconds: bool, absolute: bool)
    | Ttl(seconds: bool)
    | Persist | Dbsize | Flush
    | NoKeyspace

  /** Which command an upper-case name stands for.  CONFIG, INFO, COMMAND, SELECT,
      QUIT, the three persistence commands and unknown names reach no keyspace. */
  function VerbOf(name: Bytes): Verb
  {
    if name == Ascii("REPLCONF") then Replconf
    else if name == Ascii("PSYNC") then Psync
    else if name == Ascii("REPLICAOF") || name == Ascii("SLAVEOF") then Replicaof
    else if name == Ascii("PING") then Ping
    else if name == Ascii("ECHO") then Echo
    else if name == Ascii("SET") then Set
    else if name == Ascii("GET") then Get
    else if name == Ascii("DEL") || name == Ascii("UNLINK") then Del
    else if name == Ascii("EXISTS") then Exists
    else if name == Ascii("TYPE") then Type
    else if name == Ascii("KEYS") then Keys
    else if name == Ascii("EXPIRE") then Expire(true, false)
    else if name == Ascii("PEXPIRE") then Expire(false, false)
    else if name == Ascii("EXPIREAT") then Expire(true, true)
    else if name == Ascii("PEXPIREAT") then Expire(false, true)
    else if name == Ascii("TTL") then Ttl(true)
    else if name == Ascii("PTTL") then Ttl(false)
    else if name == Ascii("PERSIST") then Persist
    else if name == Ascii("DBSIZE") then Dbsize
    else if name == Ascii("FLUSHALL") || name == Ascii("FLUSHDB") then Flush
    else NoKeyspace
  }

  /** The commands a read-only replica refuses from its clients. */
  predicate IsWriteCommand(name: Bytes)
  {
    || name == Ascii("SET") || name == Ascii("DEL") || name == Ascii("UNLINK")
    || name == Ascii("EXPIRE") || name == Ascii("PEXPIRE") || name == Ascii("EXPIREAT")
    || name == Ascii("PEXPIREAT") || name == Ascii("PERSIST") || name == Ascii("FLUSHALL")
    || name == Ascii("FLUSHDB")
  }

  predicate Writes(verb: Verb) { verb.Set? || verb.Del? || verb.Expire? || verb.Persist? || verb.Flush? }

  lemma {:induction false} ShortWriteNames(name: Bytes)
    requires IsWriteCommand(name) && |name| <= 6
    ensures Writes(VerbOf(name))
  {
    assert Ascii("SET")[0] == 83 && Ascii("GET")[0] == 71 && Ascii("DEL")[0] == 68;
    assert Ascii("UNLINK")[0] == 85 && Ascii("EXISTS")[2] == 73 && Ascii("EXPIRE")[2] == 80;
    assert Ascii("EXPIRE")[0] == 69;
  }

  lemma {:induction false} LongWriteNames(name: Bytes)
    requires IsWriteCommand(name) && |name| > 7
    ensures Writes(VerbOf(name))
  {
    assert Ascii("REPLCONF")[0] == 82 && Ascii("EXPIREAT")[0] == 69 && Ascii("FLUSHALL")[0] == 70;
    assert Ascii("REPLICAOF")[0] == 82 && Ascii("PEXPIREAT")[0] == 80;
  }

  lemma {:induction false} SevenLetterNames(name: Bytes)
    requires IsWriteCommand(name) && |name| == 7
    ensures Writes(VerbOf(name))
  {
    assert Ascii("SLAVEOF")[0] == 83 && Ascii("PEXPIRE")[2] == 88 && Ascii("PERSIST")[2] == 82;
    assert Ascii("PEXPIRE")[0] == 80 && Ascii("PERSIST")[0] == 80 && Ascii("FLUSHDB")[0] == 70;
  }

  /** The list of refused names is exactly the list of names that can write. */
  lemma {:induction false} WriteCommandsWrite(name: Bytes)
    ensures IsWriteCommand(name) <==> Writes(VerbOf(name))
  {
    if IsWriteCommand(name) {
      if |name| <= 6 {
        ShortWriteNames(name);
      } else if |name| == 7 {
        SevenLetterNames(name);
      } else {
        LongWriteNames(name);
      }
    }
  }

  /** The names canonical commands are written with. */
  lemma {:induction false} CanonicalNames()
    ensures VerbOf(Upper(Ascii("SET"))) == Set
    ensures VerbOf(Upper(Ascii("PEXPIREAT"))) == Expire(false, true)
  {
    hide VerbOf;
    hide Upper;
    hide Ascii;
    SetName();
    PexpireatName();
  }

  lemma {:induction false} SetName()
    ensures VerbOf(Upper(Ascii("SET"))) == Set
  {
    hide Ascii;
    hide Upper;
    SetIsUpper();
  }

  lemma {:induction false} SetIsUpper()
    ensures Upper(Ascii("SET")) == Ascii("SET")
  {}

  lemma {:induction false} PexpireatName()
    ensures VerbOf(Upper(Ascii("PEXPIREAT"))) == Expire(false, true)
  {
    assert Upper(Ascii("PEXPIREAT")) == Ascii("PEXPIREAT");
    assert Ascii("PEXPIREAT")[0] == 80;
    assert Ascii("REPLICAOF")[0] == 82;
  }

  // ------------------------------------------------------------------
  // The options of SET
  // ------------------------------------------------------------------

  datatype SetOption = Deadline(seconds: bool, absolute: bool) | KeepTtl | OnlyNew | OnlyOld | WithOld | Unknown

  function OptionOf(word: Bytes): SetOption
  {
    if word == Ascii("EX") then Deadline(true, false)
    else if word == Ascii("PX") then Deadline(false, false)
    else if word == Ascii("EXAT") then Deadline(true, true)
    else if word == Ascii("PXAT") then Deadline(false, true)
    else if word == Ascii("KEEPTTL") then KeepTtl
    else if word == Ascii("NX") then OnlyNew
    else if word == Ascii("XX") then OnlyOld
    else if word == Ascii("GET") then WithOld
    else Unknown
  }

  datatype Reply =
    | NoReply | Fine | Pong | Missing
    | Text(value: Bytes) | Number(n: int) | Listing(keys: set<Bytes>) | Kind(present: bool)
    | WrongArity | NotInteger | SyntaxError | InvalidExpire | InvalidPort | ReadOnly
    | Elsewhere

  /** The absolute deadline an expiry argument stands for.  Overflows is where the
      int64 arithmetic of the source is undefined. */
  datatype Resolved = At(ms: int) | Invalid | Overflows

  const MAX_SECONDS: int := 9_223_372_036_854_775

  function SetDeadline(seconds: bool, absolute: bool, n: int, now: nat): Resolved
  {
    if seconds && n > MAX_SECONDS then Invalid
    else
      var ms := if seconds then n * 1000 else n;
      if ms < INT64_MIN then Overflows
      else if !absolute && ms <= 0 then Invalid
      else if !absolute && now + ms > INT64_MAX then Overflows
      else At(if absolute then ms else now + ms)
  }

  function ExpireDeadline(seconds: bool, absolute: bool, n: int, now: nat): Resolved
  {
    if seconds && (n > MAX_SECONDS || n < -MAX_SECONDS) then Invalid
    else
      var ms := if seconds then n * 1000 else n;
      if !absolute && now + ms > INT64_MAX then Overflows
      else At(if absolute then ms else now + ms)
  }

  datatype SetOptions = SetOptions(expireAt: int, keepTtl: bool, nx: bool, xx: bool, get: bool)

  const NO_OPTIONS := SetOptions(NO_EXPIRY, false, false, false, false)

  datatype Scan = Scanned(options: SetOptions) | Refused(reply: Reply) | Undefined

  function ScanOptions(args: Args, i: nat, o: SetOptions, now: nat): Scan
    decreases |args| - i
  {
    if i >= |args| then Scanned(o)
    else match OptionOf(Upper(args[i]))
      case Deadline(seconds, absolute) =>
        if o.expireAt != NO_EXPIRY || o.keepTtl || i + 1 >= |args| then Refused(SyntaxError)
        else (match ToInt64(args[i + 1])
              case None => Refused(NotInteger)
              case Some(n) =>
                match SetDeadline(seconds, absolute, n, now)
                case Invalid => Refused(InvalidExpire)
                case Overflows => Undefined
                case At(ms) => ScanOptions(args, i + 2, o.(expireAt := ms), now))
      case KeepTtl =>
        if o.expireAt != NO_EXPIRY then Refused(SyntaxError)
        else ScanOptions(args, i + 1, o.(keepTtl := true), now)
      case OnlyNew =>
        if o.xx then Refused(SyntaxError) else ScanOptions(args, i + 1, o.(nx := true), now)
      case OnlyOld =>
        if o.nx then Refused(SyntaxError) else ScanOptions(args, i + 1, o.(xx := true), now)
      case WithOld => ScanOptions(args, i + 1, o.(get := true), now)
      case Unknown => Refused(SyntaxError)
  }

  // ------------------------------------------------------------------
  // What each command does to the view
  // ------------------------------------------------------------------

  datatype Outcome = Outcome(reply: Reply, dirty: bool, propagate: Args, view: View)

  function Clean(reply: Reply, v: View): Outcome { Outcome(reply, false, [], v) }

  function CanonicalSet(key: Bytes, value: Bytes, expireAt: int): Args
  {
    [Ascii("SET"), key, value] +
    if expireAt == NO_EXPIRY then [] else [Ascii("PXAT"), IntToString(expireAt)]
  }

  function OldValue(v: View, key: Bytes): Reply
  {
    if key in v then Text(v[key].value) else Missing
  }

  function RunSet(v: View, args: Args, now: nat): Outcome
  {
    if |args| < 3 then Clean(WrongArity, v)
    else match ScanOptions(args, 3, NO_OPTIONS, now)
      case Undefined => Clean(NoReply, v)
      case Refused(reply) => Clean(reply, v)
      case Scanned(o) =>
        var key := args[1];
        if (o.nx && key in v) || (o.xx && key !in v) then
          Clean(if o.get then OldValue(v, key) else Missing, v)
        else
          var expireAt :=
            if !o.keepTtl then o.expireAt
            else if key in v && v[key].deadline.Some? then v[key].deadline.value
            else NO_EXPIRY;
          Outcome(if o.get then OldValue(v, key) else Fine, true,
                  CanonicalSet(key, args[2], expireAt),
                  Put(v, key, Entry(args[2], ToDeadline(expireAt)), now))
  }

  function KeysNamed(args: Args): set<Bytes> { set i | 1 <= i < |args| :: args[i] }

  /** How many of the keys are there: naming one twice counts it once. */
  function PresentAmong(keys: set<Bytes>, v: View): nat { |keys * v.Keys| }

  function RunDel(v: View, args: Args): Outcome
  {
    if |args| < 2 then Clean(WrongArity, v)
    else
      var removed := PresentAmong(KeysNamed(args), v);
      Outcome(Number(removed), removed > 0, if removed > 0 then args else [], v - KeysNamed(args))
  }

  function RunExpire(v: View, args: Args, seconds: bool, absolute: bool, now: nat): Outcome
  {
    if |args| != 3 then Clean(WrongArity, v)
    else match ToInt64(args[2])
      case None => Clean(NotInteger, v)
      case Some(n) =>
        match ExpireDeadline(seconds, absolute, n, now)
        case Invalid => Clean(InvalidExpire, v)
        case Overflows => Clean(NoReply, v)
        case At(ms) =>
          if args[1] !in v then Clean(Number(0), v)
          else Outcome(Number(1), true, [Ascii("PEXPIREAT"), args[1], IntToString(ms)],
                       MoveDeadline(v, args[1], Some(ms), now))
  }

  function RunPersist(v: View, args: Args, now: nat): Outcome
  {
    if |args| != 2 then Clean(WrongArity, v)
    else if args[1] in v && v[args[1]].deadline.Some? then
      Outcome(Number(1), true, args, MoveDeadline(v, args[1], None, now))
    else Clean(Number(0), v)
  }

  function Remaining(v: View, key: Bytes, now: nat): int
  {
    if key !in v then -2
    else if v[key].deadline.None? then -1
    else v[key].deadline.value - now
  }

  /** Seconds are rounded up, so a live key never reports zero. */
  function RunTtl(v: View, args: Args, seconds: bool, now: nat): Reply
  {
    if |args| != 2 then WrongArity
    else
      var ms := Remaining(v, args[1], now);
      Number(if ms < 0 || !seconds then ms else (ms + 999) / 1000)
  }

  function CountPresent(keys: Args, v: View): nat
  {
    if keys == [] then 0
    else CountPresent(keys[..|keys| - 1], v) + if keys[|keys| - 1] in v then 1 else 0
  }

  ghost function MatchingKeys(v: View, pattern: Bytes): set<Bytes>
  {
    set k | k in v && Glob.Matches(Glob.Tokens(pattern, 0), 0, k, 0)
  }

  ghost function RunRead(v: View, args: Args, verb: Verb, now: nat): Reply
    requires verb.Get? || verb.Exists? || verb.Type? || verb.Keys? || verb.Ttl? || verb.Dbsize?
  {
    match verb
    case Get => if |args| != 2 then WrongArity else OldValue(v, args[1])
    case Exists => if |args| < 2 then WrongArity else Number(CountPresent(args[1..], v))
    case Type => if |args| != 2 then WrongArity else Kind(args[1] in v)
    case Keys => if |args| != 2 then WrongArity else Listing(MatchingKeys(v, args[1]))
    case Ttl(seconds) => RunTtl(v, args, seconds, now)
    case Dbsize => if |args| != 1 then WrongArity else Number(|v|)
  }

  function RunPing(args: Args): Reply
  {
    if |args| == 1 then Pong else if |args| == 2 then Text(args[1]) else WrongArity
  }

  /** REPLICAOF NO ONE, in any case: the server is its own master from here on. */
  predicate Promotes(args: Args)
  {
    && |args| == 3 && VerbOf(Upper(args[0])).Replicaof?
    && Upper(args[1]) == Ascii("NO") && Upper(args[2]) == Ascii("ONE")
  }

  /** REPLICAOF with a host and a usable port: the server is a replica from here on. */
  predicate Demotes(args: Args)
  {
    && |args| == 3 && VerbOf(Upper(args[0])).Replicaof? && !Promotes(args)
    && ToInt64(args[2]).Some? && 0 < ToInt64(args[2]).value <= 65535
  }

  /** Whether the server is a replica when the next command comes. */
  function RoleAfter(args: Args, isReplica: bool): bool
  {
    if Promotes(args) then false else if Demotes(args) then true else isReplica
  }

  function RunReplicaof(args: Args): Reply
  {
    if |args| != 3 then WrongArity else if Promotes(args) || Demotes(args) then Fine else InvalidPort
  }

  /** CommandTable::dispatch for a command that is not refused. */
  ghost function Run(v: View, args: Args, now: nat): Outcome
  {
    if args == [] then Clean(NoReply, v)
    else
      var verb := VerbOf(Upper(args[0]));
      match verb
      case Set => RunSet(v, args, now)
      case Del => RunDel(v, args)
      case Expire(seconds, absolute) => RunExpire(v, args, seconds, absolute, now)
      case Persist => RunPersist(v, args, now)
      case Flush => Outcome(Fine, true, args, map[])
      case Ping => Clean(RunPing(args), v)
      case Echo => Clean(if |args| == 2 then Text(args[1]) else WrongArity, v)
      case Replconf => Clean(Elsewhere, v)
      case Psync => Clean(Elsewhere, v)
      case Replicaof => Clean(RunReplicaof(args), v)
      case NoKeyspace => Clean(Elsewhere, v)
      case Get => Clean(RunRead(v, args, verb, now), v)
      case Exists => Clean(RunRead(v, args, verb, now), v)
      case Type => Clean(RunRead(v, args, verb, now), v)
      case Keys => Clean(RunRead(v, args, verb, now), v)
      case Ttl(_) => Clean(RunRead(v, args, verb, now), v)
      case Dbsize => Clean(RunRead(v, args, verb, now), v)
  }

  /** The int64 sums of the source stay in range for this command. */
  predicate InRange(args: Args, now: nat)
  {
    args == [] ||
    match VerbOf(Upper(args[0]))
    case Set => |args| < 3 || !ScanOptions(args, 3, NO_OPTIONS, now).Undefined?
    case Expire(seconds, absolute) =>
      |args| != 3 || ToInt64(args[2]).None?
      || !ExpireDeadline(seconds, absolute, ToInt64(args[2]).value, now).Overflows?
    case _ => true
  }

  /** What a client of a replica gets: writes are refused before any sum is formed. */
  ghost function RunForClient(v: View, args: Args, now: nat, isReplica: bool): Outcome
  {
    if args != [] && isReplica && IsWriteCommand(Upper(args[0])) then Clean(ReadOnly, v)
    else Run(v, args, now)
  }

  // ------------------------------------------------------------------
  // Canonical writes
  // ------------------------------------------------------------------

  /** The four kinds of write that are logged and streamed. */
  datatype Write =
    | PutKey(key: Bytes, entry: Entry)
    | DeleteKeys(keys: set<Bytes>)
    | MoveTo(key: Bytes, deadline: Option<int>)
    | DropAll

  function Apply(v: View, w: Write, t: int): View
  {
    match w
    case PutKey(key, entry) => Put(v, key, entry, t)
    case DeleteKeys(keys) => v - keys
    case MoveTo(key, deadline) => MoveDeadline(v, key, deadline, t)
    case DropAll => map[]
  }

  /** The write a logged command stands for. */
  function WriteOf(args: Args): Option<Write>
  {
    if args == [] then None
    else match VerbOf(Upper(args[0]))
      case Set =>
        if |args| == 3 then Some(PutKey(args[1], Entry(args[2], None)))
        else if |args| == 5 && args[3] == Ascii("PXAT") && ToInt64(args[4]).Some? then
          Some(PutKey(args[1], Entry(args[2], ToDeadline(ToInt64(args[4]).value))))
        else None
      case Del => if |args| >= 2 then Some(DeleteKeys(KeysNamed(args))) else None
      case Expire(seconds, absolute) =>
        if |args| == 3 && !seconds && absolute && ToInt64(args[2]).Some? then
          Some(MoveTo(args[1], Some(ToInt64(args[2]).value)))
        else None
      case Persist => if |args| == 2 then Some(MoveTo(args[1], None)) else None
      case Flush => Some(DropAll)
      case _ => None
  }

  /** Keys, values and deadlines are small enough to be written down again. */
  ghost predicate Storable(v: View)
  {
    forall k :: k in v ==>
      && |k| <= MAX_BULK && |v[k].value| <= MAX_BULK
      && (v[k].deadline.Some? ==> v[k].deadline.value <= INT64_MAX)
  }

  lemma {:induction false} ScanInRange(args: Args, i: nat, o: SetOptions, now: nat)
    requires -INT64_MAX <= o.expireAt <= INT64_MAX
    requires ScanOptions(args, i, o, now).Scanned?
    ensures -INT64_MAX <= ScanOptions(args, i, o, now).options.expireAt <= INT64_MAX
    decreases |args| - i
  {
    hide OptionOf;
    hide ToInt64;
    hide Upper;
    if i < |args| {
      match OptionOf(Upper(args[i]))
      case Deadline(seconds, absolute) =>
        var ms := SetDeadline(seconds, absolute, ToInt64(args[i + 1]).value, now).ms;
        ScanInRange(args, i + 2, o.(expireAt := ms), now);
      case KeepTtl => ScanInRange(args, i + 1, o.(keepTtl := true), now);
      case OnlyNew => ScanInRange(args, i + 1, o.(nx := true), now);
      case OnlyOld => ScanInRange(args, i + 1, o.(xx := true), now);
      case WithOld => ScanInRange(args, i + 1, o.(get := true), now);
    }
  }

  /** A canonical SET reads back as the entry it was made from. */
  lemma {:induction false} CanonicalSetReads(key: Bytes, value: Bytes, expireAt: int)
    requires -INT64_MAX <= expireAt <= INT64_MAX
    ensures WriteOf(CanonicalSet(key, value, expireAt)) == Some(PutKey(key, Entry(value, ToDeadline(expireAt))))
    ensures |key| <= MAX_BULK && |value| <= MAX_BULK ==> WithinLimits(CanonicalSet(key, value, expireAt))
  {
    hide VerbOf;
    hide ToInt64;
    hide IntToString;
    CanonicalNames();
    PrintedIntegerReadsBack(expireAt);
    PrintedShort(expireAt);
  }

  lemma {:induction false} PrintedShort(n: int)
    ensures ToInt64(IntToString(n)).Some? ==> |IntToString(n)| <= 20
  {}

  /** What may be logged and streamed: a write, small enough to be sent, under a
      name a replica will apply. */
  ghost predicate Canonical(args: Args)
  {
    && args != [] && WithinLimits(args)
    && WriteOf(args).Some?
    && IsWriteCommand(Upper(args[0]))
  }

  lemma {:induction false} WriteNames(args: Args)
    requires WriteOf(args).Some?
    ensures IsWriteCommand(Upper(args[0]))
  {
    hide VerbOf;
    hide IsWriteCommand;
    WriteCommandsWrite(Upper(args[0]));
  }

  /** A dirty outcome carries a canonical write that does the same to `v`; any
      other outcome left `v` alone. */
  ghost predicate Compiled(v: View, out: Outcome, now: nat)
  {
    if out.dirty
    then Canonical(out.propagate) && out.view == Apply(v, WriteOf(out.propagate).value, now)
    else out.view == v
  }

  lemma {:induction false} SetCompiles(v: View, args: Args, now: nat)
    requires Current(v, now) && Storable(v) && WithinLimits(args) && |args| >= 3
    requires !ScanOptions(args, 3, NO_OPTIONS, now).Undefined?
    ensures Compiled(v, RunSet(v, args, now), now)
  {
    hide ScanOptions;
    hide CanonicalSet;
    hide WriteOf;
    hide IsWriteCommand;
    var scan := ScanOptions(args, 3, NO_OPTIONS, now);
    if scan.Scanned? {
      ScanInRange(args, 3, NO_OPTIONS, now);
      var key := args[1];
      var expireAt :=
        if !scan.options.keepTtl then scan.options.expireAt
        else if key in v && v[key].deadline.Some? then v[key].deadline.value
        else NO_EXPIRY;
      CanonicalSetReads(key, args[2], expireAt);
      CanonicalNotEmpty(key, args[2], expireAt);
      WriteNames(CanonicalSet(key, args[2], expireAt));
    }
  }

  lemma {:induction false} CanonicalNotEmpty(key: Bytes, value: Bytes, expireAt: int)
    ensures CanonicalSet(key, value, expireAt) != []
  {}

  lemma {:induction false} ExpireCompiles(v: View, args: Args, seconds: bool, absolute: bool, now: nat)
    requires Current(v, now) && Storable(v) && WithinLimits(args) && |args| == 3
    requires ToInt64(args[2]).Some? ==>
               !ExpireDeadline(seconds, absolute, ToInt64(args[2]).value, now).Overflows?
    ensures Compiled(v, RunExpire(v, args, seconds, absolute, now), now)
  {
    hide VerbOf;
    hide IsWriteCommand;
    hide ToInt64;
    hide IntToString;
    hide Upper;
    CanonicalNames();
    var n := ToInt64(args[2]);
    if n.Some? {
      var deadline := ExpireDeadline(seconds, absolute, n.value, now);
      if deadline.At? && args[1] in v {
        PrintedIntegerReadsBack(deadline.ms);
        PrintedShort(deadline.ms);
        WriteNames([Ascii("PEXPIREAT"), args[1], IntToString(deadline.ms)]);
      }
    }
  }

  lemma {:induction false} DelCompiles(v: View, args: Args, now: nat)
    requires args != [] && VerbOf(Upper(args[0])).Del? && WithinLimits(args)
    ensures Compiled(v, RunDel(v, args), now)
  {
    hide VerbOf;
    hide IsWriteCommand;
    hide Upper;
    hide KeysNamed;
    hide PresentAmong;
    if |args| >= 2 {
      WriteNames(args);
      NonePresent(KeysNamed(args), v);
    }
  }

  lemma {:induction false} NonePresent(keys: set<Bytes>, v: View)
    ensures PresentAmong(keys, v) == 0 ==> v - keys == v
  {
    if PresentAmong(keys, v) == 0 {
      assert forall k :: k in v ==> k !in keys * v.Keys;
      assert v - keys == v;
    }
  }

  lemma {:induction false} PersistCompiles(v: View, args: Args, now: nat)
    requires args != [] && VerbOf(Upper(args[0])).Persist? && WithinLimits(args)
    ensures Compiled(v, RunPersist(v, args, now), now)
  {
    hide VerbOf;
    hide IsWriteCommand;
    hide Upper;
    if |args| == 2 {
      WriteNames(args);
    }
  }

  lemma {:induction false} FlushCompiles(v: View, args: Args, now: nat)
    requires args != [] && VerbOf(Upper(args[0])).Flush? && WithinLimits(args)
    ensures Compiled(v, Outcome(Fine, true, args, map[]), now)
  {
    hide VerbOf;
    hide IsWriteCommand;
    hide Upper;
    WriteNames(args);
  }

  lemma {:induction false} CleanCompiles(reply: Reply, v: View, now: nat)
    ensures Compiled(v, Clean(reply, v), now)
  {}

  /** Compiling a command to its canonical form keeps its meaning: if it changed
      the keyspace, the canonical write does the same to the view; if it is not
      marked dirty, the view is as it was. */
  lemma {:induction false} CommandCompiles(v: View, args: Args, now: nat)
    requires Current(v, now) && Storable(v) && WithinLimits(args) && InRange(args, now)
    ensures Compiled(v, Run(v, args, now), now)
  {
    hide VerbOf;
    hide Upper;
    hide RunSet;
    hide RunExpire;
    hide RunDel;
    hide RunPersist;
    hide Compiled;
    if args == [] {
      CleanCompiles(NoReply, v, now);
    } else {
      match VerbOf(Upper(args[0]))
      case Set => if |args| >= 3 { SetCompiles(v, args, now); } else { SetTooShort(v, args, now); }
      case Expire(seconds, absolute) =>
        if |args| == 3 { ExpireCompiles(v, args, seconds, absolute, now); }
        else { ExpireTooShort(v, args, seconds, absolute, now); }
      case Del => DelCompiles(v, args, now);
      case Persist => PersistCompiles(v, args, now);
      case Flush => FlushCompiles(v, args, now);
      case _ => CleanCompiles(Run(v, args, now).reply, v, now);
    }
  }

  lemma {:induction false} SetTooShort(v: View, args: Args, now: nat)
    requires |args| < 3
    ensures Compiled(v, RunSet(v, args, now), now)
  {}

  lemma {:induction false} ExpireTooShort(v: View, args: Args, seconds: bool, absolute: bool, now: nat)
    requires |args| != 3
    ensures Compiled(v, RunExpire(v, args, seconds, absolute, now), now)
  {}

  /** A canonical command run on any view at any time is the write it stands
      for, and never leaves the int64 range. */
  lemma {:induction false} CanonicalRuns(v: View, args: Args, t: nat)
    requires WriteOf(args).Some?
    ensures InRange(args, t)
    ensures Run(v, args, t).view == Apply(v, WriteOf(args).value, t)
  {
    hide VerbOf;
    hide Upper;
    hide ToInt64;
    hide ScanOptions;
    hide Apply;
    hide RunSet;
    hide RunDel;
    hide RunExpire;
    hide RunPersist;
    hide ExpireDeadline;
    match VerbOf(Upper(args[0]))
    case Set => SetRuns(v, args, t);
    case Del => DelRuns(v, args, t);
    case Expire(_, _) => ExpireRuns(v, args, t);
    case Persist => PersistRuns(v, args, t);
    case Flush => FlushRuns(v, t);
  }

  lemma {:induction false} SetRuns(v: View, args: Args, t: nat)
    requires |args| == 3 || (|args| == 5 && args[3] == Ascii("PXAT") && ToInt64(args[4]).Some?)
    ensures ScanOptions(args, 3, NO_OPTIONS, t).Scanned?
    ensures var expireAt := if |args| == 3 then NO_EXPIRY else ToInt64(args[4]).value;
            RunSet(v, args, t).view == Apply(v, PutKey(args[1], Entry(args[2], ToDeadline(expireAt))), t)
  {
    hide ToInt64;
    hide ScanOptions;
    PlainScan(args, t);
  }

  lemma {:induction false} DelRuns(v: View, args: Args, t: nat)
    requires |args| >= 2
    ensures RunDel(v, args).view == Apply(v, DeleteKeys(KeysNamed(args)), t)
  {
    hide KeysNamed;
    hide PresentAmong;
  }

  lemma {:induction false} ExpireRuns(v: View, args: Args, t: nat)
    requires |args| == 3 && ToInt64(args[2]).Some?
    ensures var n := ToInt64(args[2]).value;
            && !ExpireDeadline(false, true, n, t).Overflows?
            && RunExpire(v, args, false, true, t).view == Apply(v, MoveTo(args[1], Some(n)), t)
  {
    hide ToInt64;
    hide IntToString;
    hide Ascii;
  }

  lemma {:induction false} PersistRuns(v: View, args: Args, t: nat)
    requires |args| == 2
    ensures RunPersist(v, args, t).view == Apply(v, MoveTo(args[1], None), t)
  {
    if args[1] in v && v[args[1]].deadline.None? {
      assert v[args[1] := v[args[1]]] == v;
    }
  }

  lemma {:induction false} FlushRuns(v: View, t: nat)
    ensures Apply(v, DropAll, t) == map[]
  {}

  lemma {:induction false} PlainScan(args: Args, t: nat)
    requires |args| == 3 || (|args| == 5 && args[3] == Ascii("PXAT") && ToInt64(args[4]).Some?)
    ensures ScanOptions(args, 3, NO_OPTIONS, t) ==
            Scanned(NO_OPTIONS.(expireAt := if |args| == 3 then NO_EXPIRY else ToInt64(args[4]).value))
  {
    hide ToInt64;
    if |args| == 5 {
      assert Upper(Ascii("PXAT")) == Ascii("PXAT");
      assert Ascii("EXAT")[0] == 69 && Ascii("PXAT")[0] == 80;
    }
  }

  /** Views stay storable under everything a client can send. */
  lemma {:induction false} RunKeepsStorable(v: View, args: Args, now: nat)
    requires Current(v, now) && Storable(v) && WithinLimits(args) && InRange(args, now)
    ensures Storable(Run(v, args, now).view) && Current(Run(v, args, now).view, now)
  {
    hide Run;
    hide InRange;
    CommandCompiles(v, args, now);
    var out := Run(v, args, now);
    if out.dirty {
      ApplyKeepsStorable(v, out.propagate, now);
    }
  }

  lemma {:induction false} ApplyKeepsStorable(v: View, args: Args, now: nat)
    requires Current(v, now) && Storable(v) && Canonical(args)
    ensures Storable(Apply(v, WriteOf(args).value, now))
    ensures Current(Apply(v, WriteOf(args).value, now), now)
  {
    hide VerbOf;
    hide IsWriteCommand;
    hide ToInt64;
    hide Upper;
  }

  /** No command from a client, whatever its arguments, changes what a replica shows. */
  lemma {:induction false} ReplicaIsReadOnly(v: View, args: Args, now: nat)
    ensures RunForClient(v, args, now, true).view == v
    ensures !RunForClient(v, args, now, true).dirty
  {
    hide VerbOf;
    hide IsWriteCommand;
    hide RunRead;
    if args != [] {
      WriteCommandsWrite(Upper(args[0]));
    }
  }
}
