/** The connection handler: bytes in, commands run at readings of the clock, replies
    out, and what is to be logged and streamed handed on. */
module Handlers {
  import opened ByteStrings
  import opened Keyspace
  import opened Resp
  import opened Framing
  import opened Commands
  import opened CommandTables
  import opened Replay
  import opened Serving
  import opened Connection

  lemma {:induction false} OldViews(db: Db, before: View, from: nat)
    requires before == ViewOf(db, from)
    ensures forall t: nat :: t >= from ==> ViewOf(db, t) == Fade(before, t)
  {
    hide ViewOf;
    forall t: nat | t >= from ensures ViewOf(db, t) == Fade(before, t) {
      ViewFades(db, from, t);
    }
  }

  lemma {:induction false} NextInRange(commands: seq<Args>, done: seq<Args>, args: Args, clock: nat -> nat, isReplica: bool)
    requires Runnable(Timed(commands, clock), isReplica)
    requires |done| < |commands| && done == commands[..|done|] && commands[|done|] == args
    ensures RoleIn(Timed(done, clock), isReplica) || InRange(args, clock(|done|))
  {
    hide InRange;
    hide RoleIn;
    assert Timed(commands, clock)[..|done|] == Timed(done, clock);
  }

  class RespHandler {
    const table: CommandTable
    /** What has been handed to the propagation hook so far. */
    var propagated: seq<Args>

    constructor (table: CommandTable)
      ensures this.table == table && propagated == []
    {
      this.table := table;
      propagated := [];
    }

    /** The commands in `done` have been run, each at its own clock reading, from a
        server showing `before` in the role `isReplica`. */
    ghost predicate ServedSoFar(
      before: View, base: seq<Args>, done: seq<Args>, clock: nat -> nat, isReplica: bool)
      reads this, table, table.store
    {
      var history := Timed(done, clock);
      var at := clock(|done|);
      && table.store.Valid() && table.isReplica == RoleIn(history, isReplica)
      && table.store.Live(at) == Fade(ServedTo(before, history, isReplica), at)
      && propagated == base + PropagatedBy(before, history, isReplica)
    }

    method RunOne(args: Args, clock: nat -> nat, ghost before: View, ghost base: seq<Args>,
                  ghost done: seq<Args>, ghost isReplica: bool, now: nat) returns (reply: Reply)
      requires Monotone(clock) && now == clock(|done|)
      requires ServedSoFar(before, base, done, clock, isReplica)
      requires RoleIn(Timed(done, clock), isReplica) || InRange(args, now)
      modifies this, table, table.store
      ensures ServedSoFar(before, base, done + [args], clock, isReplica)
      ensures RepliesTo(before, Timed(done + [args], clock), isReplica)
           == RepliesTo(before, Timed(done, clock), isReplica) + [reply]
    {
      hide RunForClient;
      hide RoleAfter;
      hide RoleIn;
      hide ServedTo;
      hide PropagatedBy;
      hide RepliesTo;
      hide InRange;
      hide ViewOf;
      hide Consistent;
      hide Timed;
      var dirty, propagate;
      reply, dirty, propagate := table.Dispatch(args, true, now);
      TimedOneMore(done, args, clock);
      OneMoreCommand(before, Timed(done, clock), isReplica, Event(args, now));
      if dirty {
        propagated := propagated + [propagate];
      }
      ViewFades(table.store.Contents(), now, clock(|done| + 1));
    }

    /** The loop of on_data, going on from the commands already run. */
    method ServeBuffered(input: Buffer, clock: nat -> nat, sofar: nat, told: seq<Reply>,
                         ghost before: View, ghost base: seq<Args>, ghost earlier: seq<Args>, ghost isReplica: bool)
      returns (handled: nat, replies: seq<Reply>, error: Option<ProtocolError>)
      requires input.Valid() && Monotone(clock) && sofar == |earlier|
      requires ServedSoFar(before, base, earlier, clock, isReplica)
      requires told == RepliesTo(before, Timed(earlier, clock), isReplica)
      requires Runnable(Timed(earlier + Drain(input.Readable()).commands, clock), isReplica)
      modifies this, input, table, table.store
      ensures input.Valid()
      ensures var d := Drain(old(input.Readable()));
              var done := earlier + d.commands;
              && handled == |done| && error == d.error && input.Readable() == AfterRead(d)
              && ServedSoFar(before, base, done, clock, isReplica)
              && replies == RepliesTo(before, Timed(done, clock), isReplica)
    {
      hide Parse;
      hide Drain;
      hide Draining;
      hide InRange;
      hide Runnable;
      hide ServedSoFar;
      hide RepliesTo;
      hide RoleIn;
      handled, replies, error := sofar, told, None;
      ghost var all := Drain(input.Readable());
      ghost var done: seq<Args> := [];
      StartDraining(input.Readable());
      assert earlier + done == earlier;
      while true
        invariant input.Valid() && Draining(all, done, input.Readable())
        invariant ServedSoFar(before, base, earlier + done, clock, isReplica)
        invariant handled == |earlier + done| && replies == RepliesTo(before, Timed(earlier + done, clock), isReplica)
        decreases |input.Readable()|
      {
        DrainTurn(all, done, input.Readable());
        DrainedFront(all, done, input.Readable());
        var result := ParseRequest(input.Readable());
        if result.Incomplete? {
          break;
        }
        if result.Error? {
          error := Some(result.error);
          input.Clear();
          break;
        }
        input.Consume(result.consumed);
        if result.args == [] {
          assert done + [] == done;
          continue;
        }
        ghost var commands := earlier + all.commands;
        assert commands[..handled] == earlier + done && commands[handled] == result.args;
        NextInRange(commands, earlier + done, result.args, clock, isReplica);
        assert earlier + (done + [result.args]) == (earlier + done) + [result.args];
        var reply := RunOne(result.args, clock, before, base, earlier + done, isReplica, clock(handled));
        replies := replies + [reply];
        done := done + [result.args];
        handled := handled + 1;
      }
    }

    /** One read: everything whole in the buffer is run. */
    method OnData(input: Buffer, clock: nat -> nat)
      returns (handled: nat, replies: seq<Reply>, error: Option<ProtocolError>)
      requires input.Valid() && table.store.Valid() && Monotone(clock)
      requires Runnable(Timed(Drain(input.Readable()).commands, clock), table.isReplica)
      modifies this, input, table, table.store
      ensures input.Valid()
      ensures var d := Drain(old(input.Readable()));
              && handled == |d.commands| && error == d.error && input.Readable() == AfterRead(d)
              && Answers(old(table.store.Contents()), old(propagated), old(table.isReplica), d.commands, clock, replies)
    {
      hide Drain;
      hide Runnable;
      hide ServedSoFar;
      hide Answers;
      hide ViewOf;
      ghost var before := table.store.Live(clock(0));
      ghost var commands := Drain(input.Readable()).commands;
      StartServing(before, clock);
      assert [] + commands == commands;
      handled, replies, error :=
        ServeBuffered(input, clock, 0, [], before, propagated, [], table.isReplica);
      DrainedWithinLimits(old(input.Readable()));
      Finish(old(table.store.Contents()), before, old(propagated), commands, clock, old(table.isReplica), replies);
    }

    /** Read after read, the bytes cut in any way: what is run, left over and reported
        is what feeding the chunks comes to, and the answers are those of one history. */
    method OnReads(input: Buffer, chunks: seq<Bytes>, clock: nat -> nat)
      returns (handled: nat, replies: seq<Reply>, errors: seq<ProtocolError>)
      requires input.Valid() && table.store.Valid() && Monotone(clock)
      requires Runnable(Timed(Feed(input.Readable(), chunks).commands, clock), table.isReplica)
      modifies this, input, table, table.store
      ensures input.Valid()
      ensures var fed := Feed(old(input.Readable()), chunks);
              && handled == |fed.commands| && errors == fed.errors && input.Readable() == fed.buffer
              && Answers(old(table.store.Contents()), old(propagated), old(table.isReplica), fed.commands, clock, replies)
    {
      hide Drain;
      hide Feed;
      hide Feeding;
      hide Runnable;
      hide ServedSoFar;
      hide RepliesTo;
      hide Answers;
      hide ViewOf;
      hide Transmissible;
      handled, replies, errors := 0, [], [];
      ghost var before := table.store.Live(clock(0));
      ghost var base, isReplica := propagated, table.isReplica;
      ghost var all := Feed(input.Readable(), chunks);
      ghost var done: seq<Args> := [];
      StartServing(before, clock);
      StartFeeding(input.Readable(), chunks);
      NothingTransmissible();
      var i := 0;
      assert chunks[0..] == chunks;
      while i < |chunks|
        invariant 0 <= i <= |chunks| && input.Valid()
        invariant Feeding(all, done, errors, input.Readable(), chunks[i..])
        invariant ServedSoFar(before, base, done, clock, isReplica)
        invariant handled == |done| && replies == RepliesTo(before, Timed(done, clock), isReplica)
        invariant Transmissible(done)
      {
        FeedTurn(all, done, errors, input.Readable(), chunks[i..]);
        assert chunks[i..][0] == chunks[i] && chunks[i..][1..] == chunks[i + 1..];
        ghost var d := Drain(input.Readable() + chunks[i]);
        RunnableFront(all.commands, done + d.commands, clock, isReplica);
        input.Append(chunks[i]);
        DrainedWithinLimits(input.Readable());
        var error;
        handled, replies, error := ServeBuffered(input, clock, handled, replies, before, base, done, isReplica);
        errors := errors + if error.Some? then [error.value] else [];
        BothTransmissible(done, d.commands);
        done := done + d.commands;
        i := i + 1;
      }
      FeedTurn(all, done, errors, input.Readable(), chunks[i..]);
      Finish(old(table.store.Contents()), before, base, done, clock, isReplica, replies);
    }

    /** What running the commands, one per clock reading from the first, comes to for a
        server that held `db` and had propagated `base` in the given role. */
    ghost predicate Answers(
      db: Db, base: seq<Args>, isReplica: bool, commands: seq<Args>, clock: nat -> nat, replies: seq<Reply>)
      reads this, table, table.store
    {
      var before := ViewOf(db, clock(0));
      var history := Timed(commands, clock);
      var log := LogOf(before, Admitted(history, isReplica));
      && table.store.Valid() && table.isReplica == RoleIn(history, isReplica)
      && replies == RepliesTo(before, history, isReplica)
      && propagated == base + PropagatedBy(before, history, isReplica)
      && (forall t: nat :: t >= clock(|commands|) ==>
            table.store.Live(t) == Fade(ServedTo(before, history, isReplica), t))
      // In whatever roles: a canonical log was propagated, and it alone tells the view.
      && (Storable(before) ==>
            && CanonicalLog(log) && propagated == base + ArgsOf(log)
            && forall t: nat :: t >= clock(|commands|) ==> table.store.Live(t) == Fade(Written(before, log), t))
      // While it is a replica: it shows what it would have shown anyway, and is silent.
      && (ReplicaThroughout(history, isReplica) ==>
            && propagated == base
            && forall t: nat :: t >= clock(|commands|) ==> table.store.Live(t) == ViewOf(db, t))
    }

    lemma {:induction false} StartServing(before: View, clock: nat -> nat)
      requires table.store.Valid() && before == table.store.Live(clock(0))
      ensures ServedSoFar(before, propagated, [], clock, table.isReplica)
      ensures RepliesTo(before, Timed([], clock), table.isReplica) == []
    {
      ViewIsCurrent(table.store.Contents(), clock(0));
      FadeCurrent(before, clock(0));
    }

    lemma {:induction false} Finish(db: Db, before: View, base: seq<Args>, done: seq<Args>, clock: nat -> nat,
                                    isReplica: bool, replies: seq<Reply>)
      requires ServedSoFar(before, base, done, clock, isReplica) && Monotone(clock)
      requires before == ViewOf(db, clock(0)) && replies == RepliesTo(before, Timed(done, clock), isReplica)
      requires Transmissible(done) && Runnable(Timed(done, clock), isReplica)
      ensures Answers(db, base, isReplica, done, clock, replies)
    {
      hide ViewOf;
      hide ServedTo;
      hide PropagatedBy;
      hide RepliesTo;
      hide RoleIn;
      hide LogOf;
      hide Admitted;
      hide Written;
      hide Storable;
      hide CanonicalLog;
      hide Transmissible;
      hide Runnable;
      hide ReplicaThroughout;
      hide Consistent;
      LiveLater(before, base, done, clock, isReplica);
      var history := Timed(done, clock);
      if ReplicaThroughout(history, isReplica) {
        ReplicaBatch(before, done, clock, isReplica);
        OldViews(db, before, clock(0));
      }
      if Storable(before) {
        BatchIsTold(before, done, clock, isReplica);
      }
    }

    lemma {:induction false} LiveLater(before: View, base: seq<Args>, done: seq<Args>, clock: nat -> nat, isReplica: bool)
      requires ServedSoFar(before, base, done, clock, isReplica)
      ensures forall t: nat :: t >= clock(|done|) ==>
                table.store.Live(t) == Fade(ServedTo(before, Timed(done, clock), isReplica), t)
    {
      hide ViewOf;
      hide ServedTo;
      hide PropagatedBy;
      hide RoleIn;
      var at := clock(|done|);
      forall t: nat | t >= at
        ensures table.store.Live(t) == Fade(ServedTo(before, Timed(done, clock), isReplica), t)
      {
        ViewFades(table.store.Contents(), at, t);
        FadeTwice(ServedTo(before, Timed(done, clock), isReplica), at, t);
      }
    }
  }

  lemma {:induction false} DrainedFront(all: Drained, done: seq<Args>, buffer: Bytes)
    requires Draining(all, done, buffer)
    ensures done <= all.commands
  {
    hide Drain;
  }

  lemma {:induction false} RunnableFront(all: seq<Args>, front: seq<Args>, clock: nat -> nat, isReplica: bool)
    requires Runnable(Timed(all, clock), isReplica) && front <= all
    ensures Runnable(Timed(front, clock), isReplica)
  {
    hide InRange;
    hide RoleIn;
    var history, part := Timed(all, clock), Timed(front, clock);
    forall i | 0 <= i < |part|
      ensures RoleIn(part[..i], isReplica) || InRange(part[i].args, part[i].at)
    {
      assert part[..i] == history[..i] && part[i] == history[i];
    }
  }

  lemma {:induction false} NothingTransmissible()
    ensures Transmissible([])
  {}

  lemma {:induction false} BothTransmissible(a: seq<Args>, b: seq<Args>)
    requires Transmissible(a) && Transmissible(b)
    ensures Transmissible(a + b)
  {
    hide WithinLimits;
  }
}
