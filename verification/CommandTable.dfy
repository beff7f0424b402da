/** The command table as the server runs it: commands that read and update the
    store in place, each proved to have the outcome its specification gives. */
module CommandTables {
  import opened ByteStrings
  import opened Keyspace
  import opened Commands
  import opened Storage
  import Sampling

  /** The option loop of cmd_set. */
  method ScanSet(args: Args, now: nat) returns (scan: Scan)
    ensures scan == ScanOptions(args, 3, NO_OPTIONS, now)
  {
    hide OptionOf;
    hide ToInt64;
    hide Upper;
    var expireAt := NO_EXPIRY;
    var keepTtl, nx, xx, get := false, false, false, false;
    var i := 3;
    while i < |args|
      invariant i >= 3
      invariant ScanOptions(args, i, SetOptions(expireAt, keepTtl, nx, xx, get), now)
             == ScanOptions(args, 3, NO_OPTIONS, now)
      decreases |args| - i
    {
      var opt := OptionOf(Upper(args[i]));
      match opt {
        case Deadline(seconds, absolute) =>
          if expireAt != NO_EXPIRY || keepTtl {
            return Refused(SyntaxError);
          }
          if i + 1 >= |args| {
            return Refused(SyntaxError);
          }
          i := i + 1;
          var n := ToInt64Loop(args[i]);
          if n.None? {
            return Refused(NotInteger);
          }
          var at := SetDeadline(seconds, absolute, n.value, now);
          if at.Invalid? {
            return Refused(InvalidExpire);
          }
          if at.Overflows? {
            return Undefined;
          }
          expireAt := at.ms;
        case KeepTtl =>
          if expireAt != NO_EXPIRY {
            return Refused(SyntaxError);
          }
          keepTtl := true;
        case OnlyNew =>
          if xx {
            return Refused(SyntaxError);
          }
          nx := true;
        case OnlyOld =>
          if nx {
            return Refused(SyntaxError);
          }
          xx := true;
        case WithOld =>
          get := true;
        case Unknown =>
          return Refused(SyntaxError);
      }
      i := i + 1;
    }
    scan := Scanned(SetOptions(expireAt, keepTtl, nx, xx, get));
  }

  class CommandTable {
    const store: Store
    var isReplica: bool

    constructor (store: Store)
      ensures this.store == store && !isReplica
    {
      this.store := store;
      isReplica := false;
    }

    method CmdSet(args: Args, now: nat) returns (reply: Reply, dirty: bool, propagate: Args)
      requires store.Valid()
      requires |args| >= 3 ==> !ScanOptions(args, 3, NO_OPTIONS, now).Undefined?
      modifies store
      ensures store.Valid()
      ensures Outcome(reply, dirty, propagate, store.Live(now)) == RunSet(old(store.Live(now)), args, now)
    {
      hide ScanOptions;
      hide Keyspace.ViewOf;
      dirty, propagate := false, [];
      if |args| < 3 {
        return WrongArity, dirty, propagate;
      }
      var scan := ScanSet(args, now);
      if scan.Refused? {
        return scan.reply, dirty, propagate;
      }
      var o := scan.options;
      var previous := store.Get(args[1], now);
      var oldValue := if previous.Some? then Text(previous.value) else Missing;
      if (o.nx && previous.Some?) || (o.xx && previous.None?) {
        return if o.get then oldValue else Missing, dirty, propagate;
      }
      var expireAt := o.expireAt;
      if o.keepTtl {
        var remaining := store.Pttl(args[1], now);
        expireAt := if remaining >= 0 then now + remaining else NO_EXPIRY;
      }
      store.Set(args[1], args[2], expireAt, now);
      dirty := true;
      propagate := [Ascii("SET"), args[1], args[2]];
      if expireAt != NO_EXPIRY {
        propagate := propagate + [Ascii("PXAT"), IntToString(expireAt)];
      }
      reply := if o.get then oldValue else Fine;
    }

    method CmdDel(args: Args, now: nat) returns (reply: Reply, dirty: bool, propagate: Args)
      requires store.Valid()
      modifies store
      ensures store.Valid()
      ensures Outcome(reply, dirty, propagate, store.Live(now)) == RunDel(old(store.Live(now)), args)
    {
      dirty, propagate := false, [];
      if |args| < 2 {
        return WrongArity, dirty, propagate;
      }
      var removed := EraseEach(args, now);
      if removed > 0 {
        dirty, propagate := true, args;
      }
      reply := Number(removed);
    }

    /** The loop of cmd_del. */
    method EraseEach(args: Args, now: nat) returns (removed: nat)
      requires store.Valid() && |args| >= 1
      modifies store
      ensures store.Valid() && store.Live(now) == old(store.Live(now)) - KeysNamed(args)
      ensures removed == PresentAmong(KeysNamed(args), old(store.Live(now)))
    {
      hide KeysNamed;
      hide PresentAmong;
      hide Keyspace.ViewOf;
      hide Keyspace.Consistent;
      ghost var v := store.Live(now);
      ghost var gone: set<Bytes> := {};
      removed := 0;
      var i := 1;
      NoKeysYet(args, v);
      while i < |args|
        invariant 1 <= i <= |args|
        invariant gone == KeysNamed(args[..i])
        invariant store.Valid() && store.Live(now) == v - gone
        invariant removed == PresentAmong(gone, v)
      {
        var wasLive := store.Erase(args[i], now);
        KeysNamedGrows(args, i);
        OneMoreKey(gone, args[i], v);
        if wasLive {
          removed := removed + 1;
        }
        gone := gone + {args[i]};
        i := i + 1;
      }
      assert args[..|args|] == args;
    }

    method CmdExpire(args: Args, seconds: bool, absolute: bool, now: nat)
      returns (reply: Reply, dirty: bool, propagate: Args)
      requires store.Valid()
      requires |args| == 3 && ToInt64(args[2]).Some? ==>
                 !ExpireDeadline(seconds, absolute, ToInt64(args[2]).value, now).Overflows?
      modifies store
      ensures store.Valid()
      ensures Outcome(reply, dirty, propagate, store.Live(now))
           == RunExpire(old(store.Live(now)), args, seconds, absolute, now)
    {
      hide ToInt64;
      dirty, propagate := false, [];
      if |args| != 3 {
        return WrongArity, dirty, propagate;
      }
      var n := ToInt64Loop(args[2]);
      if n.None? {
        return NotInteger, dirty, propagate;
      }
      var at := ExpireDeadline(seconds, absolute, n.value, now);
      if at.Invalid? {
        return InvalidExpire, dirty, propagate;
      }
      var applied := store.ExpireAt(args[1], at.ms, now);
      if applied {
        dirty, propagate := true, [Ascii("PEXPIREAT"), args[1], IntToString(at.ms)];
      }
      reply := Number(if applied then 1 else 0);
    }

    method CmdPersist(args: Args, now: nat) returns (reply: Reply, dirty: bool, propagate: Args)
      requires store.Valid()
      modifies store
      ensures store.Valid()
      ensures Outcome(reply, dirty, propagate, store.Live(now)) == RunPersist(old(store.Live(now)), args, now)
    {
      dirty, propagate := false, [];
      if |args| != 2 {
        return WrongArity, dirty, propagate;
      }
      var applied := store.Persist(args[1], now);
      if applied {
        dirty, propagate := true, args;
      }
      reply := Number(if applied then 1 else 0);
      ViewIsCurrent(old(store.Contents()), now);
      NothingToPersist(old(store.Live(now)), args[1], now);
    }

    method CmdExists(keys: Args, now: nat) returns (found: nat)
      requires store.Valid()
      modifies store
      ensures store.Valid() && store.Live(now) == old(store.Live(now))
      ensures found == CountPresent(keys, store.Live(now))
    {
      found := 0;
      for i := 0 to |keys|
        invariant store.Valid() && store.Live(now) == old(store.Live(now))
        invariant found == CountPresent(keys[..i], store.Live(now))
      {
        var present := store.Contains(keys[i], now);
        assert keys[..i + 1][..i] == keys[..i];
        if present {
          found := found + 1;
        }
      }
      assert keys[..|keys|] == keys;
    }

    /** The read commands: they may reap what they touch, and nothing shows. */
    method CmdRead(args: Args, verb: Verb, now: nat) returns (reply: Reply)
      requires verb.Get? || verb.Exists? || verb.Type? || verb.Keys? || verb.Ttl? || verb.Dbsize?
      requires store.Valid()
      modifies store
      ensures store.Valid() && store.Live(now) == old(store.Live(now))
      ensures reply == RunRead(store.Live(now), args, verb, now)
    {
      hide Keyspace.ViewOf;
      match verb {
        case Get =>
          if |args| != 2 { return WrongArity; }
          var value := store.Get(args[1], now);
          reply := if value.Some? then Text(value.value) else Missing;
        case Exists =>
          if |args| < 2 { return WrongArity; }
          var found := CmdExists(args[1..], now);
          reply := Number(found);
        case Type =>
          if |args| != 2 { return WrongArity; }
          var present := store.Contains(args[1], now);
          reply := Kind(present);
        case Keys =>
          if |args| != 2 { return WrongArity; }
          var keys := store.Keys(args[1], now);
          assert Sampling.KeySet(keys) == MatchingKeys(store.Live(now), args[1]);
          reply := Listing(Sampling.KeySet(keys));
        case Ttl(seconds) =>
          if |args| != 2 { return WrongArity; }
          var ms := store.Pttl(args[1], now);
          reply := Number(if ms < 0 || !seconds then ms else (ms + 999) / 1000);
        case Dbsize =>
          if |args| != 1 { return WrongArity; }
          var n := store.Size(now);
          reply := Number(n);
      }
    }

    /** REPLICAOF: the role changes at once, before the next command is looked at. */
    method CmdReplicaof(args: Args) returns (reply: Reply)
      requires args != [] && VerbOf(Upper(args[0])).Replicaof?
      modifies this`isReplica
      ensures reply == RunReplicaof(args)
      ensures isReplica == RoleAfter(args, old(isReplica))
    {
      hide VerbOf;
      hide ToInt64;
      if |args| != 3 {
        return WrongArity;
      }
      if Upper(args[1]) == Ascii("NO") && Upper(args[2]) == Ascii("ONE") {
        isReplica := false;
        return Fine;
      }
      var port := ToInt64Loop(args[2]);
      if port.None? || port.value <= 0 || port.value > 65535 {
        return InvalidPort;
      }
      isReplica := true;
      reply := Fine;
    }

    /** CommandTable::dispatch.  `fromClient` is false for the log and for the
        master's stream, which a replica must not refuse. */
    method Dispatch(args: Args, fromClient: bool, now: nat)
      returns (reply: Reply, dirty: bool, propagate: Args)
      requires store.Valid() && ((fromClient && isReplica) || InRange(args, now))
      modifies store, this`isReplica
      ensures store.Valid()
      ensures Outcome(reply, dirty, propagate, store.Live(now))
           == RunForClient(old(store.Live(now)), args, now, fromClient && old(isReplica))
      ensures isReplica == RoleAfter(args, old(isReplica))
    {
      hide VerbOf;
      hide IsWriteCommand;
      hide RunSet;
      hide RunDel;
      hide RunExpire;
      hide RunPersist;
      hide RunRead;
      hide RunReplicaof;
      hide ToInt64;
      hide Keyspace.ViewOf;
      dirty, propagate := false, [];
      if args == [] {
        return NoReply, dirty, propagate;
      }
      var name := Upper(args[0]);
      WriteCommandsWrite(name);
      if fromClient && isReplica && IsWriteCommand(name) {
        return ReadOnly, dirty, propagate;
      }
      var verb := VerbOf(name);
      match verb {
        case Replconf => reply := Elsewhere;
        case Psync => reply := Elsewhere;
        case Replicaof => reply := CmdReplicaof(args);
        case NoKeyspace => reply := Elsewhere;
        case Ping => reply := RunPing(args);
        case Echo => reply := if |args| == 2 then Text(args[1]) else WrongArity;
        case Set => reply, dirty, propagate := CmdSet(args, now);
        case Del => reply, dirty, propagate := CmdDel(args, now);
        case Expire(seconds, absolute) =>
          reply, dirty, propagate := CmdExpire(args, seconds, absolute, now);
        case Persist => reply, dirty, propagate := CmdPersist(args, now);
        case Flush =>
          store.Clear();
          reply, dirty, propagate := Fine, true, args;
        case _ => reply := CmdRead(args, verb, now);
      }
    }
  }

  lemma {:induction false} NoKeysYet(args: Args, v: View)
    requires |args| >= 1
    ensures KeysNamed(args[..1]) == {} && v - {} == v && PresentAmong({}, v) == 0
  {
    assert {} * v.Keys == {};
  }

  lemma {:induction false} KeysNamedGrows(args: Args, i: nat)
    requires 1 <= i < |args|
    ensures KeysNamed(args[..i + 1]) == KeysNamed(args[..i]) + {args[i]}
  {
    var more := args[..i + 1];
    assert forall j :: 1 <= j < i ==> more[j] == args[..i][j];
    assert more[i] == args[i];
  }

  /** Erasing one more key counts it once, and only if it is still there. */
  lemma {:induction false} OneMoreKey(before: set<Bytes>, key: Bytes, v: View)
    ensures v - before - {key} == v - (before + {key})
    ensures PresentAmong(before + {key}, v) ==
            PresentAmong(before, v) + if key in v - before then 1 else 0
  {
    if key in v && key !in before {
      assert (before + {key}) * v.Keys == before * v.Keys + {key};
    } else {
      assert (before + {key}) * v.Keys == before * v.Keys;
    }
  }

  lemma {:induction false} NothingToPersist(v: View, key: Bytes, now: nat)
    ensures key !in v || v[key].deadline.None? ==> MoveDeadline(v, key, None, now) == v
  {
    if key in v && v[key].deadline.None? {
      assert v[key := v[key]] == v;
    }
  }
}
