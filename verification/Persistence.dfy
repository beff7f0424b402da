/** The append-only file: a log of canonical writes, its rewriting, and what a
    restart makes of whatever bytes survived. */
module Persistence {
  import opened ByteStrings
  import opened Keyspace
  import opened Resp
  import opened Framing
  import opened Commands
  import opened Replay
  import opened Storage
  import opened CommandTables
  import opened Serving
  import Sampling
  import Rdb

  // ------------------------------------------------------------------
  // The file and its buffer
  // ------------------------------------------------------------------

  function RecordCommand(r: Record): Args { CanonicalSet(r.key, r.value, r.expireAt) }

  function RewriteCommands(records: seq<Record>): (r: seq<Args>)
    ensures |r| == |records|
  {
    seq(|records|, i requires 0 <= i < |records| => RecordCommand(records[i]))
  }

  class Aof {
    var file: Bytes
    var buffer: Bytes
    var isOpen: bool
    var commandsWritten: nat

    constructor (file: Bytes)
      ensures this.file == file && buffer == [] && isOpen && commandsWritten == 0
    {
      this.file, buffer, isOpen, commandsWritten := file, [], true, 0;
    }

    /** Buffer one write command; it reaches the file at the next flush. */
    method Append(args: Args)
      modifies this`buffer, this`commandsWritten
      ensures buffer == old(buffer) + if isOpen && args != [] then Encode(args) else []
      ensures commandsWritten == old(commandsWritten) + if isOpen && args != [] then 1 else 0
    {
      if !isOpen || args == [] {
        return;
      }
      var encoded := EncodeCommand(args);
      buffer := buffer + encoded;
      commandsWritten := commandsWritten + 1;
    }

    method Flush()
      modifies this`file, this`buffer
      ensures file + buffer == old(file) + old(buffer)
      ensures isOpen ==> buffer == []
    {
      if !isOpen {
        return;
      }
      file := file + buffer;
      buffer := [];
      assert file + [] == file;
    }

    /** Replace the file by one that recreates `records`.  The buffered commands
        go to the old file, which the rename then discards. */
    method Rewrite(records: seq<Record>)
      modifies this
      ensures file == EncodeAll(RewriteCommands(records))
      ensures isOpen == old(isOpen) && (isOpen ==> buffer == []) && commandsWritten == |records|
    {
      var temp: Bytes := [];
      ghost var commands := RewriteCommands(records);
      assert EncodeEach(commands[..0]) == [];
      for i := 0 to |records|
        invariant temp == EncodeAll(commands[..i])
        invariant isOpen == old(isOpen)
      {
        var args := [Ascii("SET"), records[i].key, records[i].value];
        if records[i].expireAt != NO_EXPIRY {
          args := args + [Ascii("PXAT"), IntToString(records[i].expireAt)];
        }
        assert args == commands[i];
        var encoded := EncodeCommand(args);
        assert commands[..i + 1] == commands[..i] + [args];
        EncodeAllSplit(commands[..i], [args]);
        EncodeAllOne(args);
        temp := temp + encoded;
      }
      assert commands[..|records|] == commands;
      var wasOpen := isOpen;
      Flush();
      isOpen := false;
      file := temp;
      commandsWritten := |records|;
      if wasOpen {
        isOpen, buffer := true, [];
      }
    }
  }

  // ------------------------------------------------------------------
  // Replaying a file
  // ------------------------------------------------------------------

  /** The commands in `done` have been applied to what was `before`. */
  ghost predicate AppliedSoFar(store: Store, before: View, done: seq<Args>, clock: nat -> nat)
    reads store
  {
    var at := clock(|done|);
    store.Valid() && store.Live(at) == Fade(Served(before, Timed(done, clock)), at)
  }

  method ApplySilently(table: CommandTable, args: Args, clock: nat -> nat, now: nat,
                       ghost before: View, ghost done: seq<Args>)
    requires Monotone(clock) && now == clock(|done|)
    requires AppliedSoFar(table.store, before, done, clock) && InRange(args, now)
    modifies table, table.store
    ensures AppliedSoFar(table.store, before, done + [args], clock)
  {
    hide Run;
    hide InRange;
    hide ViewOf;
    hide Consistent;
    var _, _, _ := table.Dispatch(args, false, now);
    ServedOneMore(before, done, args, clock);
    ViewFades(table.store.Contents(), now, clock(|done| + 1));
  }

  lemma {:induction false} ServedOneMore(v: View, done: seq<Args>, args: Args, clock: nat -> nat)
    ensures Served(v, Timed(done + [args], clock))
         == Run(Fade(Served(v, Timed(done, clock)), clock(|done|)), args, clock(|done|)).view
  {
    hide Run;
    var more := Timed(done + [args], clock);
    assert more[..|done|] == Timed(done, clock);
    assert more[|done|] == Event(args, clock(|done|));
  }

  /** Aof::replay into a store: complete commands are applied in order, a torn
      tail is counted, and anything malformed is refused. */
  method ReplayFile(data: Bytes, table: CommandTable, clock: nat -> nat)
    returns (ok: bool, applied: nat, truncated: nat)
    requires table.store.Valid() && Monotone(clock)
    requires forall i :: 0 <= i < |Drain(data).commands| ==> InRange(Drain(data).commands[i], clock(i))
    modifies table, table.store
    ensures table.store.Valid()
    ensures var d := Drain(data);
            && ok == d.error.None?
            && applied == |d.commands|
            && truncated == (if ok then |d.rest| else 0)
            && (forall t: nat :: t >= clock(applied) ==>
                  table.store.Live(t)
                  == Fade(Served(old(table.store.Live(clock(0))), Timed(d.commands, clock)), t))
  {
    hide Parse;
    hide Drain;
    hide Draining;
    hide InRange;
    hide Served;
    hide AppliedSoFar;
    ok, applied, truncated := true, 0, 0;
    var remaining := data;
    ghost var before := table.store.Live(clock(0));
    ghost var all := Drain(data);
    ghost var done: seq<Args> := [];
    StartDraining(data);
    NothingApplied(table.store, before, clock);
    while remaining != []
      invariant ok && truncated == 0 && applied == |done|
      invariant Draining(all, done, remaining)
      invariant AppliedSoFar(table.store, before, done, clock)
      decreases |remaining|
    {
      DrainTurn(all, done, remaining);
      var result := ParseRequest(remaining);
      if result.Incomplete? {
        truncated := |remaining|;
        AllApplied(table.store, before, done, clock);
        return;
      }
      if result.Error? {
        AllApplied(table.store, before, done, clock);
        return false, applied, 0;
      }
      if result.args != [] {
        ApplySilently(table, result.args, clock, clock(applied), before, done);
        done := done + [result.args];
        applied := applied + 1;
      } else {
        assert done + [] == done;
      }
      remaining := remaining[result.consumed..];
    }
    DrainTurn(all, done, []);
    NothingIsIncomplete();
    AllApplied(table.store, before, done, clock);
  }

  lemma {:induction false} NothingIsIncomplete()
    ensures Parse([]) == Incomplete
  {}

  lemma {:induction false} NothingApplied(store: Store, before: View, clock: nat -> nat)
    requires store.Valid() && before == store.Live(clock(0))
    ensures AppliedSoFar(store, before, [], clock)
  {
    ViewIsCurrent(store.Contents(), clock(0));
    FadeCurrent(before, clock(0));
  }

  lemma {:induction false} AllApplied(store: Store, before: View, done: seq<Args>, clock: nat -> nat)
    requires AppliedSoFar(store, before, done, clock)
    ensures store.Valid()
    ensures forall t: nat :: t >= clock(|done|) ==>
              store.Live(t) == Fade(Served(before, Timed(done, clock)), t)
  {
    hide ViewOf;
    var at := clock(|done|);
    forall t: nat | t >= at ensures store.Live(t) == Fade(Served(before, Timed(done, clock)), t) {
      ViewFades(store.Contents(), at, t);
      FadeTwice(Served(before, Timed(done, clock)), at, t);
    }
  }

  // ------------------------------------------------------------------
  // A server with its log
  // ------------------------------------------------------------------

  /** The log a rewrite leaves: one SET per record, all made at `now`. */
  function RewriteLog(records: seq<Record>, now: nat): (log: seq<Event>)
    ensures |log| == |records|
  {
    seq(|records|, i requires 0 <= i < |records| => Event(RecordCommand(records[i]), now))
  }

  ghost predicate Writable(records: seq<Record>)
  {
    forall i :: 0 <= i < |records| ==>
      && |records[i].key| <= MAX_BULK && |records[i].value| <= MAX_BULK
      && -INT64_MAX <= records[i].expireAt <= INT64_MAX
  }

  lemma {:induction false} RecordCanonical(r: Record)
    requires |r.key| <= MAX_BULK && |r.value| <= MAX_BULK && -INT64_MAX <= r.expireAt <= INT64_MAX
    ensures Canonical(RecordCommand(r))
    ensures WriteOf(RecordCommand(r)) == Some(PutKey(r.key, RecordEntry(r)))
  {
    hide WriteOf;
    hide IsWriteCommand;
    hide CanonicalSet;
    CanonicalSetReads(r.key, r.value, r.expireAt);
    CanonicalNotEmpty(r.key, r.value, r.expireAt);
    WriteNames(RecordCommand(r));
  }

  lemma {:induction false} ListedIsWritable(records: seq<Record>, v: View, now: nat)
    requires Lists(records, v) && Current(v, now) && Storable(v)
    ensures Writable(records)
    ensures forall i :: 0 <= i < |records| ==> Alive(RecordEntry(records[i]), now)
  {
    forall i | 0 <= i < |records|
      ensures |records[i].key| <= MAX_BULK && |records[i].value| <= MAX_BULK
      ensures -INT64_MAX <= records[i].expireAt <= INT64_MAX
      ensures Alive(RecordEntry(records[i]), now)
    {
      assert v[records[i].key] == RecordEntry(records[i]);
    }
  }

  lemma {:induction false} RewriteLogWrites(records: seq<Record>, now: nat)
    requires Writable(records)
    requires forall i :: 0 <= i < |records| ==> Alive(RecordEntry(records[i]), now)
    ensures CanonicalLog(RewriteLog(records, now))
    ensures Written(map[], RewriteLog(records, now)) == Loaded(map[], records, now)
    ensures Current(Loaded(map[], records, now), now)
    decreases |records|
  {
    hide Canonical;
    hide WriteOf;
    hide CanonicalSet;
    forall i | 0 <= i < |records| ensures Canonical(RewriteLog(records, now)[i].args) {
      RecordCanonical(records[i]);
    }
    if records != [] {
      var n := |records| - 1;
      var log := RewriteLog(records, now);
      assert log[..n] == RewriteLog(records[..n], now);
      RewriteLogWrites(records[..n], now);
      RecordCanonical(records[n]);
      FadeCurrent(Loaded(map[], records[..n], now), now);
    }
  }

  /** A rewritten file holds a log that writes exactly the present view. */
  lemma {:induction false} RewriteKeepsView(records: seq<Record>, v: View, now: nat)
    requires Lists(records, v) && Current(v, now) && Storable(v)
    ensures CanonicalLog(RewriteLog(records, now)) && LastAt(RewriteLog(records, now)) <= now
    ensures Written(map[], RewriteLog(records, now)) == v
    ensures ArgsOf(RewriteLog(records, now)) == RewriteCommands(records)
  {
    hide Canonical;
    ListedIsWritable(records, v, now);
    RewriteLogWrites(records, now);
    LoadingRestores(records, v, now);
    FadeCurrent(v, now);
  }

  /** The log is canonical and its writes alone lead to the view `v` at `now`. */
  ghost predicate Tells(log: seq<Event>, v: View, now: nat)
  {
    CanonicalLog(log) && LastAt(log) <= now && Fade(Written(map[], log), now) == v
  }

  /** Running a command and logging its canonical form keeps it that way. */
  lemma {:induction false} TellsOneMore(log: seq<Event>, v: View, args: Args, now: nat)
    requires Tells(log, v, now) && Current(v, now) && Storable(v)
    requires WithinLimits(args) && InRange(args, now)
    ensures var out := Run(v, args, now);
            if out.dirty
            then var e := Event(out.propagate, now);
                 && out.propagate != []
                 && Tells(log + [e], out.view, now)
                 && EncodeAll(ArgsOf(log + [e])) == EncodeAll(ArgsOf(log)) + Encode(out.propagate)
            else out.view == v
    ensures Storable(Run(v, args, now).view)
  {
    hide Run;
    hide InRange;
    hide Canonical;
    hide CanonicalLog;
    hide Written;
    hide Storable;
    hide Encode;
    CommandCompiles(v, args, now);
    RunKeepsStorable(v, args, now);
    var out := Run(v, args, now);
    if out.dirty {
      var e := Event(out.propagate, now);
      LogOneMore(map[], log, e, v);
      CanonicalNonEmpty(out.propagate);
      assert ArgsOf(log + [e]) == ArgsOf(log) + [out.propagate];
      EncodeAllSplit(ArgsOf(log), [out.propagate]);
      EncodeAllOne(out.propagate);
      FadeCurrent(out.view, now);
    }
  }

  class LoggingServer {
    const store: Store
    const table: CommandTable
    const aof: Aof

    /** The writes the file and its buffer hold, with the times they were run here. */
    ghost var log: seq<Event>
    /** How many of them the counter of the log does not count: those that were in the
        file when it was opened. */
    ghost var uncounted: nat

    constructor (store: Store, table: CommandTable, aof: Aof, ghost log: seq<Event>, ghost now: nat)
      requires table.store == store && store.Valid() && aof.isOpen && aof.commandsWritten == 0
      requires aof.file + aof.buffer == EncodeAll(ArgsOf(log)) && aof.buffer == []
      requires Tells(log, store.Live(now), now) && Storable(store.Live(now))
      ensures this.store == store && this.table == table && this.aof == aof
      ensures Valid(now) && this.log == log && uncounted == |log|
    {
      this.store, this.table, this.aof := store, table, aof;
      this.log, uncounted := log, |log|;
    }

    /** File and buffer together are the log, and the log alone tells the view. */
    ghost predicate Valid(now: nat)
      reads this, store, table, aof
    {
      && table.store == store
      && store.Valid() && aof.isOpen && aof.commandsWritten + uncounted == |log|
      && aof.file + aof.buffer == EncodeAll(ArgsOf(log))
      && Tells(log, store.Live(now), now)
      && Storable(store.Live(now))
    }

    lemma {:induction false} TimePasses(now: nat, later: nat)
      requires Valid(now) && now <= later
      ensures Valid(later)
    {
      hide Canonical;
      hide Written;
      hide EncodeAll;
      ViewFades(store.Contents(), now, later);
      FadeTwice(Written(map[], log), now, later);
    }

    /** A client command, in whatever role: run it and log its canonical form. */
    method Execute(args: Args, now: nat) returns (reply: Reply)
      requires Valid(now) && WithinLimits(args) && (table.isReplica || InRange(args, now))
      modifies store, table, aof, this`log
      ensures Valid(now)
      ensures var out := RunForClient(old(store.Live(now)), args, now, old(table.isReplica));
              && store.Live(now) == out.view && reply == out.reply
              && log == old(log) + if out.dirty then [Event(out.propagate, now)] else []
      ensures table.isReplica == RoleAfter(args, old(table.isReplica))
    {
      hide Run;
      hide RoleAfter;
      hide InRange;
      hide Tells;
      hide ViewOf;
      hide Consistent;
      hide Storable;
      hide ArgsOf;
      hide EncodeAll;
      hide Encode;
      hide WithinLimits;
      ghost var file, buffer := aof.file, aof.buffer;
      ViewIsCurrent(store.Contents(), now);
      if table.isReplica {
        ReplicaIsReadOnly(store.Live(now), args, now);
      } else {
        TellsOneMore(log, store.Live(now), args, now);
      }
      var dirty, propagate;
      reply, dirty, propagate := table.Dispatch(args, true, now);
      if dirty {
        aof.Append(propagate);
        log := log + [Event(propagate, now)];
        assert file + (buffer + Encode(propagate)) == (file + buffer) + Encode(propagate);
      }
    }

    /** The cron tick: one active expiry cycle, a flush, and a rewrite exactly when more
        than the threshold has been counted since the file was opened; after a rewrite
        the log has one command for each live key, and the count is theirs. */
    method Cron(cfg: ExpiryConfig, rewriteThreshold: nat, now: nat, layout: Sampling.Layout)
      requires Valid(now) && Sampling.Arranges(layout, store.expires.Keys)
      modifies store, aof, this`log, this`uncounted
      ensures Valid(now) && store.Live(now) == old(store.Live(now))
      ensures aof.buffer == [] && aof.file == EncodeAll(ArgsOf(log))
      ensures if rewriteThreshold > 0 && |old(log)| - old(uncounted) > rewriteThreshold
              then Written(map[], log) == store.Live(now) && |log| == |store.Live(now)| && uncounted == 0
              else log == old(log) && uncounted == old(uncounted)
    {
      hide Written;
      hide Tells;
      hide ArgsOf;
      hide EncodeAll;
      hide Consistent;
      hide Reaped;
      hide AllExpired;
      hide Sampling.Arranges;
      hide Times;
      hide ViewOf;
      hide Storable;
      var _, _ := store.ActiveExpireCycle(cfg, now, layout);
      aof.Flush();
      assert aof.file + [] == aof.file;
      if rewriteThreshold > 0 && aof.commandsWritten > rewriteThreshold {
        RewriteAof(now);
      }
    }

    /** BGREWRITEAOF: the new file alone, without anything buffered before, writes
        exactly the present view: nothing is lost and nothing applied twice. */
    method RewriteAof(now: nat)
      requires Valid(now)
      modifies aof, this`log, this`uncounted
      ensures Valid(now) && aof.buffer == [] && aof.file == EncodeAll(ArgsOf(log))
      ensures Written(map[], log) == store.Live(now) && |log| == |store.Live(now)| && uncounted == 0
    {
      hide CanonicalLog;
      hide Written;
      hide ViewOf;
      hide Storable;
      hide Lists;
      var records := store.Snapshot(now);
      ViewIsCurrent(store.Contents(), now);
      RewriteKeepsView(records, store.Live(now), now);
      ListsCounts(records, store.Live(now));
      aof.Rewrite(records);
      log, uncounted := RewriteLog(records, now), 0;
      FadeCurrent(store.Live(now), now);
      assert aof.file + [] == aof.file;
    }
  }

  lemma {:induction false} CanonicalNonEmpty(args: Args)
    requires Canonical(args)
    ensures args != []
  {}

  lemma {:induction false} ListsCounts(records: seq<Record>, v: View)
    requires Lists(records, v)
    ensures |records| == |v|
    decreases |records|
  {
    var keys := seq(|records|, i requires 0 <= i < |records| => records[i].key);
    DistinctCounts(keys);
    assert Sampling.KeySet(keys) == v.Keys by {
      forall k | k in v ensures k in keys {
        var i :| 0 <= i < |records| && records[i].key == k;
        assert keys[i] == k;
      }
    }
  }

  // ------------------------------------------------------------------
  // Restarting
  // ------------------------------------------------------------------

  lemma {:induction false} LogIsTransmissible(log: seq<Event>)
    requires CanonicalLog(log)
    ensures Transmissible(ArgsOf(log))
  {
    hide WriteOf;
    hide IsWriteCommand;
    forall i | 0 <= i < |log| ensures WithinLimits(log[i].args) && log[i].args != [] {
      assert Canonical(log[i].args);
    }
  }

  /** A log cut at any byte: the commands wholly in front of the cut, in order,
      then the torn bytes, and never an error. */
  lemma {:induction false} CutLog(log: seq<Event>, n: nat)
    requires CanonicalLog(log) && n <= |EncodeAll(ArgsOf(log))|
    ensures var bytes := EncodeAll(ArgsOf(log));
            var j := CommandsWithin(ArgsOf(log), n);
            var whole := |EncodeAll(ArgsOf(log[..j]))|;
            && whole <= n
            && (j < |log| ==> n < |EncodeAll(ArgsOf(log[..j + 1]))|)
            && Drain(bytes[..n]) == Drained(ArgsOf(log[..j]), bytes[whole..n], None)
  {
    hide Drain;
    hide CommandsWithin;
    var commands := ArgsOf(log);
    var j := CommandsWithin(commands, n);
    LogIsTransmissible(log);
    DrainOfCutLog(commands, n);
    CommandsWithinIsLongest(commands, n);
    assert ArgsOf(log[..j]) == commands[..j];
    if j < |log| {
      assert ArgsOf(log[..j + 1]) == commands[..j + 1];
    }
  }

  function TimesOf(clock: nat -> nat, n: nat): (r: seq<nat>)
    ensures |r| == n
  {
    seq(n, i requires 0 <= i < n => clock(i))
  }

  lemma {:induction false} ReplayIsServing(v: View, log: seq<Event>, clock: nat -> nat)
    ensures Served(v, Timed(ArgsOf(log), clock)) == Replayed(v, log, TimesOf(clock, |log|))
    decreases |log|
  {
    hide Run;
    if log != [] {
      var n := |log| - 1;
      ReplayIsServing(v, log[..n], clock);
      assert Timed(ArgsOf(log), clock)[..n] == Timed(ArgsOf(log[..n]), clock);
      assert TimesOf(clock, |log|)[..n] == TimesOf(clock, n);
    }
  }

  lemma {:induction false} CanonicalInRange(log: seq<Event>, clock: nat -> nat)
    requires CanonicalLog(log)
    ensures forall i :: 0 <= i < |log| ==> InRange(ArgsOf(log)[i], clock(i))
  {
    hide InRange;
    hide WriteOf;
    forall i | 0 <= i < |log| ensures InRange(ArgsOf(log)[i], clock(i)) {
      assert Canonical(log[i].args);
      CanonicalWrites(log[i].args);
      CanonicalRuns(map[], log[i].args, clock(i));
    }
  }

  /** Restart from the first `n` bytes of a log, at times later than the writes:
      the complete commands are applied, the rest is counted as torn, nothing is
      refused; the restored view lies within what those commands had written,
      and equals it when none of them is lost to an expired deadline. */
  method Restart(ghost log: seq<Event>, data: Bytes, clock: nat -> nat)
    returns (store: Store, ok: bool, applied: nat, truncated: nat)
    requires CanonicalLog(log) && Monotone(clock)
    requires |data| <= |EncodeAll(ArgsOf(log))| && data == EncodeAll(ArgsOf(log))[..|data|]
    requires Late(log, TimesOf(clock, |log|))
    ensures fresh(store) && store.Valid() && ok
    ensures applied == CommandsWithin(ArgsOf(log), |data|)
    ensures truncated == |data| - |EncodeAll(ArgsOf(log[..applied]))|
    ensures forall t: nat :: t >= clock(applied) ==>
              Within(store.Live(t), Fade(Written(map[], log[..applied]), t))
    ensures (forall i :: 0 <= i < applied ==>
               !LosesAt(map[], log[..applied], TimesOf(clock, applied), i)) ==>
              forall t: nat :: t >= clock(applied) ==>
                store.Live(t) == Fade(Written(map[], log[..applied]), t)
  {
    hide Drain;
    hide CommandsWithin;
    hide InRange;
    hide LosesAt;
    hide Canonical;
    ghost var n := |data|;
    ghost var j := CommandsWithin(ArgsOf(log), n);
    CutLog(log, n);
    store := new Store();
    var table := new CommandTable(store);
    LogPrefix(log, j);
    CanonicalInRange(log[..j], clock);
    ok, applied, truncated := ReplayFile(data, table, clock);
    RestoredWithin(log, store, j, clock);
  }

  lemma {:induction false} LogPrefix(log: seq<Event>, j: nat)
    requires CanonicalLog(log) && j <= |log|
    ensures CanonicalLog(log[..j])
  {
    hide Canonical;
  }

  lemma {:induction false} RestoredWithin(log: seq<Event>, store: Store, j: nat, clock: nat -> nat)
    requires CanonicalLog(log) && Monotone(clock) && j <= |log|
    requires Late(log, TimesOf(clock, |log|))
    requires forall t: nat :: t >= clock(j) ==>
               store.Live(t) == Fade(Served(map[], Timed(ArgsOf(log[..j]), clock)), t)
    ensures forall t: nat :: t >= clock(j) ==>
              Within(store.Live(t), Fade(Written(map[], log[..j]), t))
    ensures (forall i :: 0 <= i < j ==> !LosesAt(map[], log[..j], TimesOf(clock, j), i)) ==>
              forall t: nat :: t >= clock(j) ==> store.Live(t) == Fade(Written(map[], log[..j]), t)
  {
    hide Served;
    hide Replayed;
    hide Written;
    hide LosesAt;
    hide ViewOf;
    hide Canonical;
    var front := log[..j];
    var times := TimesOf(clock, |log|);
    LateFront(log, times, j);
    assert times[..j] == TimesOf(clock, j);
    ReplayIsServing(map[], front, clock);
    forall t: nat | t >= clock(j) ensures Within(store.Live(t), Fade(Written(map[], front), t)) {
      LateReplayWithin(map[], map[], front, TimesOf(clock, j), t);
    }
    if forall i :: 0 <= i < j ==> !LosesAt(map[], front, TimesOf(clock, j), i) {
      LateReplayExactly(map[], front, TimesOf(clock, j));
      assert AgreesAfter(map[], front, TimesOf(clock, j), j);
      AgreedThen(front, clock, j);
      forall t: nat | t >= clock(j) ensures store.Live(t) == Fade(Written(map[], front), t) {
        if j > 0 {
          FadeTwice(Written(map[], front), clock(j - 1), t);
        }
      }
    }
  }

  lemma {:induction false} AgreedThen(front: seq<Event>, clock: nat -> nat, j: nat)
    requires |front| == j && AgreesAfter(map[], front, TimesOf(clock, j), j)
    ensures if j == 0 then Replayed(map[], front, TimesOf(clock, j)) == Written(map[], front)
            else Replayed(map[], front, TimesOf(clock, j)) == Fade(Written(map[], front), clock(j - 1))
  {
    assert front[..j] == front && TimesOf(clock, j)[..j] == TimesOf(clock, j);
  }

  /** Running a canonical log is carrying out its writes. */
  lemma {:induction false} ServedCanonical(v: View, log: seq<Event>)
    requires CanonicalLog(log)
    ensures Served(v, log) == Written(v, log)
    decreases |log|
  {
    hide Run;
    hide WriteOf;
    hide Apply;
    hide Canonical;
    if log != [] {
      var front := log[..|log| - 1];
      var last := log[|log| - 1];
      LogPrefix(log, |log| - 1);
      ServedCanonical(v, front);
      assert Canonical(last.args);
      CanonicalWrites(last.args);
      CanonicalRuns(Fade(Written(v, front), last.at), last.args, last.at);
    }
  }

  lemma {:induction false} FadeStorable(v: View, t: int)
    requires Storable(v)
    ensures Storable(Fade(v, t))
  {}

  lemma {:induction false} WrittenIsStorable(log: seq<Event>)
    requires CanonicalLog(log)
    ensures Storable(Written(map[], log))
    decreases |log|
  {
    hide WriteOf;
    hide Apply;
    hide Canonical;
    hide Storable;
    if log == [] {
      NothingStored();
    } else {
      var front := log[..|log| - 1];
      var last := log[|log| - 1];
      LogPrefix(log, |log| - 1);
      WrittenIsStorable(front);
      FadeStorable(Written(map[], front), last.at);
      FadeCurrent(Written(map[], front), last.at);
      assert Canonical(last.args);
      CanonicalWrites(last.args);
      ApplyKeepsStorable(Fade(Written(map[], front), last.at), last.args, last.at);
    }
  }

  lemma {:induction false} NothingStored()
    ensures Storable(map[])
  {}

  /** The log with every write at the time it was run again. */
  lemma {:induction false} RetimedIsCanonical(log: seq<Event>, clock: nat -> nat)
    requires CanonicalLog(log) && Monotone(clock)
    ensures CanonicalLog(Timed(ArgsOf(log), clock)) && ArgsOf(Timed(ArgsOf(log), clock)) == ArgsOf(log)
    ensures LastAt(Timed(ArgsOf(log), clock)) <= clock(|log|)
  {
    hide Canonical;
    TimedInOrder(ArgsOf(log), clock);
  }

  /** A server opened on a whole log, empty or not: it runs the log again, and from then
      on the log, each write at the time it was run again, tells its view exactly. */
  method OpenServer(ghost log: seq<Event>, data: Bytes, clock: nat -> nat)
    returns (server: LoggingServer, applied: nat)
    requires CanonicalLog(log) && Monotone(clock) && data == EncodeAll(ArgsOf(log))
    ensures fresh(server) && fresh(server.store) && fresh(server.table) && fresh(server.aof)
    ensures applied == |log| && server.Valid(clock(applied))
    ensures server.log == Timed(ArgsOf(log), clock) && server.uncounted == |log|
    ensures server.aof.file == data
  {
    hide Drain;
    hide EncodeAll;
    hide ArgsOf;
    hide CanonicalLog;
    hide Written;
    hide Served;
    hide ViewOf;
    hide Storable;
    hide Timed;
    hide InRange;
    LogIsTransmissible(log);
    WholeLogDrains(log);
    CanonicalInRange(log, clock);
    var store := new Store();
    var table := new CommandTable(store);
    var ok, truncated;
    ok, applied, truncated := ReplayFile(data, table, clock);
    var aof := new Aof(data);
    ghost var retimed := Timed(ArgsOf(log), clock);
    RetimedIsCanonical(log, clock);
    ServedCanonical(map[], retimed);
    WrittenIsStorable(retimed);
    FadeStorable(Written(map[], retimed), clock(applied));
    assert data + [] == data;
    server := new LoggingServer(store, table, aof, retimed, clock(applied));
  }

  lemma {:induction false} WholeLogDrains(log: seq<Event>)
    requires CanonicalLog(log)
    ensures Drain(EncodeAll(ArgsOf(log))) == Drained(ArgsOf(log), [], None)
  {
    hide Canonical;
    hide Drain;
    hide EncodeAll;
    var bytes := EncodeAll(ArgsOf(log));
    CutLog(log, |bytes|);
    assert bytes[..|bytes|] == bytes;
    var j := CommandsWithin(ArgsOf(log), |bytes|);
    if j < |log| {
      ShorterPrefix(log, j + 1);
    }
    assert log[..|log|] == log;
  }

  lemma {:induction false} ShorterPrefix(log: seq<Event>, j: nat)
    requires j <= |log|
    ensures |EncodeAll(ArgsOf(log[..j]))| <= |EncodeAll(ArgsOf(log))|
  {
    hide EncodeAll;
    assert ArgsOf(log) == ArgsOf(log[..j]) + ArgsOf(log[j..]);
    EncodeAllSplit(ArgsOf(log[..j]), ArgsOf(log[j..]));
  }

  /** Loading a snapshot of the records into a fresh store. */
  method LoadSnapshot(records: seq<Record>, now: nat) returns (store: Store)
    ensures fresh(store) && store.Valid()
    ensures store.Live(now) == Loaded(map[], records, now)
  {
    hide ViewOf;
    store := new Store();
    for i := 0 to |records|
      invariant fresh(store) && store.Valid()
      invariant store.Live(now) == Loaded(map[], records[..i], now)
    {
      store.LoadRecord(records[i], now);
      assert records[..i + 1][..i] == records[..i];
      assert [records[i]][..0] == [];
    }
    assert records[..|records|] == records;
  }

  lemma {:induction false} ListedIsSaveable(records: seq<Record>, v: View, now: nat)
    requires Lists(records, v) && Current(v, now) && Storable(v) && |records| < Rdb.TWO_64
    ensures Rdb.Saveable(records)
  {
    ListedIsWritable(records, v, now);
  }

  /** One SET per record never moves a deadline, so nothing of it can be lost. */
  lemma {:induction false} RewriteLosesNothing(records: seq<Record>, now: nat, times: seq<nat>, i: nat)
    requires Writable(records) && i < |records| == |times|
    ensures !LosesAt(map[], RewriteLog(records, now), times, i)
  {
    hide WriteOf;
    hide Written;
    hide CanonicalSet;
    RecordCanonical(records[i]);
  }

  /** Two ways back to the same view: a snapshot of the store, parsed and loaded at
      any later time, and the rewritten log, replayed at any later times. */
  lemma {:induction false} BothWaysRestore(records: seq<Record>, v: View, now: nat, times: seq<nat>, t: nat)
    requires Lists(records, v) && Current(v, now) && Storable(v) && |records| < Rdb.TWO_64
    requires Late(RewriteLog(records, now), times) && now <= t && LastTime(times) <= t
    ensures Rdb.Saveable(records)
    ensures Rdb.Parse(Rdb.Serialize(records)) == Rdb.Parsed(records)
    ensures Loaded(map[], records, t) == Fade(v, t)
    ensures Fade(Replayed(map[], RewriteLog(records, now), times), t) == Fade(v, t)
  {
    hide Rdb.Serialize;
    hide Rdb.Parse;
    hide Rdb.Saveable;
    hide Replayed;
    hide Written;
    hide LosesAt;
    hide Canonical;
    hide Storable;
    var log := RewriteLog(records, now);
    ListedIsSaveable(records, v, now);
    Rdb.RoundTrip(records);
    LoadingRestores(records, v, t);
    ListedIsWritable(records, v, now);
    RewriteKeepsView(records, v, now);
    forall i | 0 <= i < |log| ensures !LosesAt(map[], log, times, i) {
      RewriteLosesNothing(records, now, times, i);
    }
    LateReplayExactly(map[], log, times);
    assert AgreesAfter(map[], log, times, |log|);
    assert log[..|log|] == log && times[..|log|] == times;
    if log != [] {
      FadeTwice(v, LastTime(times), t);
    } else {
      NothingReplayed(log, times);
    }
  }

  lemma {:induction false} NothingReplayed(log: seq<Event>, times: seq<nat>)
    requires log == [] && times == []
    ensures Replayed(map[], log, times) == map[] == Written(map[], log)
  {}
}
