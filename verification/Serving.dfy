/** What a server makes of a client's commands, one after the other: which it runs,
    which it refuses because it is a replica at that moment, and what it passes on.
    The role itself is changed by REPLICAOF, in the middle of a history too. */
module Serving {
  import opened ByteStrings
  import opened Keyspace
  import opened Resp
  import opened Framing
  import opened Commands
  import opened Replay
  import CommandLaws

  // ------------------------------------------------------------------
  // Histories and roles
  // ------------------------------------------------------------------

  /** Whether the server is a replica after the history. */
  function RoleIn(history: seq<Event>, isReplica: bool): bool
  {
    if history == [] then isReplica
    else RoleAfter(history[|history| - 1].args, RoleIn(history[..|history| - 1], isReplica))
  }

  /** The view after a client's commands, on a server that is or is not a replica at
      the beginning. */
  ghost function ServedTo(v: View, history: seq<Event>, isReplica: bool): View
  {
    if history == [] then v
    else
      var front := history[..|history| - 1];
      var last := history[|history| - 1];
      RunForClient(Fade(ServedTo(v, front, isReplica), last.at), last.args, last.at, RoleIn(front, isReplica)).view
  }

  /** What goes to the propagation hook meanwhile. */
  ghost function PropagatedBy(v: View, history: seq<Event>, isReplica: bool): seq<Args>
  {
    if history == [] then []
    else
      var front := history[..|history| - 1];
      var last := history[|history| - 1];
      var before := Fade(ServedTo(v, front, isReplica), last.at);
      var out := RunForClient(before, last.args, last.at, RoleIn(front, isReplica));
      PropagatedBy(v, front, isReplica) + if out.dirty then [out.propagate] else []
  }

  /** And what the client is told, command by command. */
  ghost function RepliesTo(v: View, history: seq<Event>, isReplica: bool): (replies: seq<Reply>)
    ensures |replies| == |history|
  {
    if history == [] then []
    else
      var front := history[..|history| - 1];
      var last := history[|history| - 1];
      var before := Fade(ServedTo(v, front, isReplica), last.at);
      RepliesTo(v, front, isReplica) + [RunForClient(before, last.args, last.at, RoleIn(front, isReplica)).reply]
  }

  ghost function ArgsOf(log: seq<Event>): (r: seq<Args>)
    ensures |r| == |log| && forall i :: 0 <= i < |log| ==> r[i] == log[i].args
  {
    seq(|log|, i requires 0 <= i < |log| => log[i].args)
  }

  /** The int64 sums stay in range for every command that is not refused. */
  ghost predicate Runnable(history: seq<Event>, isReplica: bool)
  {
    forall i :: 0 <= i < |history| ==>
      RoleIn(history[..i], isReplica) || InRange(history[i].args, history[i].at)
  }

  /** The server is a replica before every command. */
  ghost predicate ReplicaThroughout(history: seq<Event>, isReplica: bool)
  {
    forall i :: 0 <= i < |history| ==> RoleIn(history[..i], isReplica)
  }

  /** The server is a master before every command. */
  ghost predicate MasterThroughout(history: seq<Event>, isReplica: bool)
  {
    forall i :: 0 <= i < |history| ==> !RoleIn(history[..i], isReplica)
  }

  // ------------------------------------------------------------------
  // The commands that are admitted
  // ------------------------------------------------------------------

  predicate Refused(args: Args, isReplica: bool)
  {
    isReplica && args != [] && IsWriteCommand(Upper(args[0]))
  }

  /** The history without the commands refused. */
  function Admitted(history: seq<Event>, isReplica: bool): seq<Event>
  {
    if history == [] then []
    else
      var front := history[..|history| - 1];
      var last := history[|history| - 1];
      Admitted(front, isReplica) + if Refused(last.args, RoleIn(front, isReplica)) then [] else [last]
  }

  lemma {:induction false} AdmittedInOrder(history: seq<Event>, isReplica: bool)
    requires InOrder(history)
    ensures InOrder(Admitted(history, isReplica))
    ensures forall i :: 0 <= i < |Admitted(history, isReplica)| ==>
              Admitted(history, isReplica)[i].at <= LastAt(history)
    ensures LastAt(Admitted(history, isReplica)) <= LastAt(history)
  {
    hide Refused;
    hide RoleIn;
    hide Admitted;
    if history == [] {
      NothingServed(map[], isReplica);
    } else {
      var front := history[..|history| - 1];
      var last := history[|history| - 1];
      assert history == front + [last];
      AdmittedInOrder(front, isReplica);
      OneMoreAdmitted(front, isReplica, last);
    }
  }

  /** Serving a history is running what is admitted of it, and what is propagated is
      the log of that. */
  lemma {:induction false} ServingIsAdmitting(v: View, history: seq<Event>, isReplica: bool, t: nat)
    requires InOrder(history) && LastAt(history) <= t
    ensures Fade(ServedTo(v, history, isReplica), t) == Fade(Served(v, Admitted(history, isReplica)), t)
    ensures PropagatedBy(v, history, isReplica) == ArgsOf(LogOf(v, Admitted(history, isReplica)))
    decreases |history|
  {
    hide Run;
    hide RoleIn;
    hide ServedTo;
    hide PropagatedBy;
    hide RepliesTo;
    hide Served;
    hide LogOf;
    hide Admitted;
    hide ArgsOf;
    if history == [] {
      NothingServed(v, isReplica);
    } else {
      var front := history[..|history| - 1];
      var last := history[|history| - 1];
      assert history == front + [last];
      ServingIsAdmitting(v, front, isReplica, last.at);
      OneMoreCommand(v, front, isReplica, last);
      OneMoreAdmitted(front, isReplica, last);
      if Refused(last.args, RoleIn(front, isReplica)) {
        FadeTwice(ServedTo(v, front, isReplica), last.at, t);
        FadeTwice(Served(v, Admitted(front, isReplica)), last.at, t);
        assert Admitted(front, isReplica) + [] == Admitted(front, isReplica);
        assert PropagatedBy(v, front, isReplica) + [] == PropagatedBy(v, front, isReplica);
      } else {
        OneMoreLogged(v, Admitted(front, isReplica), last);
      }
    }
  }

  lemma {:induction false} OneMoreAdmitted(history: seq<Event>, isReplica: bool, e: Event)
    ensures Admitted(history + [e], isReplica) ==
            Admitted(history, isReplica) + if Refused(e.args, RoleIn(history, isReplica)) then [] else [e]
  {
    hide Refused;
    hide RoleIn;
    var more := history + [e];
    assert more[..|history|] == history;
  }

  lemma {:induction false} OneMoreLogged(v: View, history: seq<Event>, e: Event)
    ensures var out := Run(Fade(Served(v, history), e.at), e.args, e.at);
            && Served(v, history + [e]) == out.view
            && ArgsOf(LogOf(v, history + [e])) ==
               ArgsOf(LogOf(v, history)) + if out.dirty then [out.propagate] else []
  {
    hide Run;
    var more := history + [e];
    assert more[..|history|] == history;
  }

  lemma {:induction false} ReadsAreInRange(args: Args, now: nat)
    requires !Refused(args, true)
    ensures InRange(args, now)
  {
    hide VerbOf;
    hide IsWriteCommand;
    hide Upper;
    if args != [] {
      WriteCommandsWrite(Upper(args[0]));
    }
  }

  lemma {:induction false} AdmittedIsHistory(history: seq<Event>, isReplica: bool)
    requires InOrder(history) && Runnable(history, isReplica)
    requires forall i :: 0 <= i < |history| ==> WithinLimits(history[i].args)
    ensures ClientHistory(Admitted(history, isReplica))
  {
    AdmittedInOrder(history, isReplica);
    AdmittedInRange(history, isReplica);
  }

  lemma {:induction false} AdmittedInRange(history: seq<Event>, isReplica: bool)
    requires Runnable(history, isReplica)
    requires forall i :: 0 <= i < |history| ==> WithinLimits(history[i].args)
    ensures forall i :: 0 <= i < |Admitted(history, isReplica)| ==>
              var e := Admitted(history, isReplica)[i];
              WithinLimits(e.args) && InRange(e.args, e.at)
  {
    hide InRange;
    hide WithinLimits;
    hide RoleIn;
    if history != [] {
      var front := history[..|history| - 1];
      var last := history[|history| - 1];
      assert forall i :: 0 <= i < |front| ==> history[..i] == front[..i];
      AdmittedInRange(front, isReplica);
      if !Refused(last.args, RoleIn(front, isReplica)) && RoleIn(front, isReplica) {
        ReadsAreInRange(last.args, last.at);
      }
    }
  }

  /** Whatever the roles meanwhile: what was propagated is a canonical log, and that
      log carried out at its own times gives the view the history left. */
  lemma {:induction false} HistoryIsTold(v: View, history: seq<Event>, isReplica: bool, t: nat)
    requires Storable(v) && InOrder(history) && Runnable(history, isReplica) && LastAt(history) <= t
    requires forall i :: 0 <= i < |history| ==> WithinLimits(history[i].args)
    ensures var log := LogOf(v, Admitted(history, isReplica));
            && CanonicalLog(log) && PropagatedBy(v, history, isReplica) == ArgsOf(log)
            && Fade(ServedTo(v, history, isReplica), t) == Fade(Written(v, log), t)
  {
    hide Admitted;
    hide InRange;
    hide WithinLimits;
    hide Storable;
    hide Written;
    hide LogOf;
    hide Served;
    hide ServedTo;
    hide PropagatedBy;
    hide Canonical;
    hide RoleIn;
    AdmittedInOrder(history, isReplica);
    AdmittedIsHistory(history, isReplica);
    ServingIsAdmitting(v, history, isReplica, t);
    LogTellsAll(v, Admitted(history, isReplica), t);
  }

  // ------------------------------------------------------------------
  // Masters and replicas
  // ------------------------------------------------------------------

  /** As long as it is a master, a server runs and propagates everything. */
  lemma {:induction false} MasterServes(v: View, history: seq<Event>, isReplica: bool)
    requires MasterThroughout(history, isReplica)
    ensures Admitted(history, isReplica) == history
    ensures ServedTo(v, history, isReplica) == Served(v, history)
    ensures PropagatedBy(v, history, isReplica) == ArgsOf(LogOf(v, history))
    decreases |history|
  {
    hide Run;
    hide RoleIn;
    hide ServedTo;
    hide PropagatedBy;
    hide RepliesTo;
    hide Served;
    hide LogOf;
    hide Admitted;
    hide ArgsOf;
    if history == [] {
      NothingServed(v, isReplica);
    } else {
      var front := history[..|history| - 1];
      var last := history[|history| - 1];
      assert history == front + [last];
      assert forall i :: 0 <= i < |front| ==> history[..i] == front[..i];
      MasterServes(v, front, isReplica);
      assert !RoleIn(history[..|front|], isReplica);
      OneMoreCommand(v, front, isReplica, last);
      OneMoreAdmitted(front, isReplica, last);
      OneMoreLogged(v, front, last);
    }
  }

  /** As long as it is a replica, a server shows its clients no change of their making
      and propagates nothing, whatever they send. */
  lemma {:induction false} ReplicaServes(v: View, history: seq<Event>, isReplica: bool, t: nat)
    requires InOrder(history) && LastAt(history) <= t && ReplicaThroughout(history, isReplica)
    ensures Fade(ServedTo(v, history, isReplica), t) == Fade(v, t)
    ensures PropagatedBy(v, history, isReplica) == []
    decreases |history|
  {
    hide RunForClient;
    hide RoleIn;
    if history != [] {
      var front := history[..|history| - 1];
      var last := history[|history| - 1];
      var before := Fade(ServedTo(v, front, isReplica), last.at);
      assert forall i :: 0 <= i < |front| ==> history[..i] == front[..i];
      ReplicaServes(v, front, isReplica, last.at);
      assert RoleIn(history[..|front|], isReplica);
      ReplicaIsReadOnly(before, last.args, last.at);
      FadeTwice(v, last.at, t);
    }
  }

  lemma {:induction false} OneMoreCommand(v: View, history: seq<Event>, isReplica: bool, e: Event)
    ensures var out :=
              RunForClient(Fade(ServedTo(v, history, isReplica), e.at), e.args, e.at, RoleIn(history, isReplica));
            && ServedTo(v, history + [e], isReplica) == out.view
            && PropagatedBy(v, history + [e], isReplica) ==
               PropagatedBy(v, history, isReplica) + (if out.dirty then [out.propagate] else [])
            && RepliesTo(v, history + [e], isReplica) == RepliesTo(v, history, isReplica) + [out.reply]
    ensures RoleIn(history + [e], isReplica) == RoleAfter(e.args, RoleIn(history, isReplica))
  {
    hide RunForClient;
    hide RoleAfter;
    var more := history + [e];
    assert more[..|history|] == history && more[|history|] == e;
  }

  /** A SET that any view would show. */
  lemma {:induction false} SomeWriteShows(w: View) returns (args: Args)
    ensures Run(w, args, 0).view != w && args != [] && IsWriteCommand(Upper(args[0]))
  {
    hide Run;
    hide VerbOf;
    var value: Bytes := if [] in w && w[[]] == Entry([], None) then [0] else [];
    args := [Ascii("SET"), [], value];
    CommandLaws.GetReadsSet(w, [], value, 0);
    SetName();
    WriteCommandsWrite(Upper(Ascii("SET")));
    assert w[[] := Entry(value, None)][[]] == Entry(value, None);
  }

  /** After any history: no command that could come next changes the view if and only
      if the server is a replica then. */
  lemma {:induction false} ReplicaExactly(v: View, history: seq<Event>, isReplica: bool)
    ensures RoleIn(history, isReplica) <==>
            forall e :: ServedTo(v, history + [e], isReplica) == Fade(ServedTo(v, history, isReplica), e.at)
  {
    hide ServedTo;
    hide RoleIn;
    hide Run;
    var w := ServedTo(v, history, isReplica);
    if RoleIn(history, isReplica) {
      forall e ensures ServedTo(v, history + [e], isReplica) == Fade(w, e.at) {
        OneMoreCommand(v, history, isReplica, e);
        ReplicaIsReadOnly(Fade(w, e.at), e.args, e.at);
      }
    } else {
      var args := SomeWriteShows(Fade(w, 0));
      OneMoreCommand(v, history, isReplica, Event(args, 0));
    }
  }

  /** And every command that could come next is run if and only if it is a master. */
  lemma {:induction false} MasterExactly(v: View, history: seq<Event>, isReplica: bool)
    ensures !RoleIn(history, isReplica) <==>
            forall e :: ServedTo(v, history + [e], isReplica)
                        == Run(Fade(ServedTo(v, history, isReplica), e.at), e.args, e.at).view
  {
    hide ServedTo;
    hide RoleIn;
    hide Run;
    var w := ServedTo(v, history, isReplica);
    if !RoleIn(history, isReplica) {
      forall e ensures ServedTo(v, history + [e], isReplica) == Run(Fade(w, e.at), e.args, e.at).view {
        OneMoreCommand(v, history, isReplica, e);
      }
    } else {
      var args := SomeWriteShows(Fade(w, 0));
      OneMoreCommand(v, history, isReplica, Event(args, 0));
    }
  }

  /** At no point of a history could a command have changed the view if and only if
      the server is a replica at every point of it. */
  lemma {:induction false} ReplicaThroughoutExactly(v: View, history: seq<Event>, isReplica: bool)
    ensures ReplicaThroughout(history, isReplica) <==>
            forall n: nat, e :: n < |history| ==>
              ServedTo(v, history[..n] + [e], isReplica) == Fade(ServedTo(v, history[..n], isReplica), e.at)
  {
    hide ServedTo;
    hide RoleIn;
    if ReplicaThroughout(history, isReplica) {
      forall n: nat, e | n < |history|
        ensures ServedTo(v, history[..n] + [e], isReplica) == Fade(ServedTo(v, history[..n], isReplica), e.at)
      {
        ReplicaExactly(v, history[..n], isReplica);
      }
    } else {
      var n: nat :| n < |history| && !RoleIn(history[..n], isReplica);
      ReplicaExactly(v, history[..n], isReplica);
    }
  }

  // ------------------------------------------------------------------
  // The role can change
  // ------------------------------------------------------------------

  lemma {:induction false} ReplicaofName()
    ensures VerbOf(Upper(Ascii("REPLICAOF"))) == Replicaof
  {
    assert Upper(Ascii("REPLICAOF")) == Ascii("REPLICAOF");
    assert Ascii("REPLICAOF")[0] == 82;
  }

  const NO_MASTER: Args := [Ascii("REPLICAOF"), Ascii("NO"), Ascii("ONE")]

  lemma {:induction false} NoMasterPromotes()
    ensures Promotes(NO_MASTER) && !Refused(NO_MASTER, true)
  {
    hide VerbOf;
    hide IsWriteCommand;
    ReplicaofName();
    WriteCommandsWrite(Upper(Ascii("REPLICAOF")));
    assert Upper(Ascii("NO")) == Ascii("NO") && Upper(Ascii("ONE")) == Ascii("ONE");
  }

  /** A replica told to follow no one stores and propagates what its client writes next. */
  lemma {:induction false} PromotedThenWrites(v: View, key: Bytes, value: Bytes, now: nat)
    ensures var write := [Ascii("SET"), key, value];
            var history := [Event(NO_MASTER, now), Event(write, now)];
            && ServedTo(v, history, true) == Fade(v, now)[key := Entry(value, None)]
            && PropagatedBy(v, history, true) == [write]
  {
    hide Run;
    hide VerbOf;
    hide Upper;
    hide IsWriteCommand;
    hide ServedTo;
    hide PropagatedBy;
    hide RoleIn;
    var write := [Ascii("SET"), key, value];
    var first := Event(NO_MASTER, now);
    NoMasterPromotes();
    OneMoreCommand(v, [], true, first);
    OneMoreCommand(v, [first], true, Event(write, now));
    assert [] + [first] == [first] && [first] + [Event(write, now)] == [first, Event(write, now)];
    NothingServed(v, true);
    ReplicaIsReadOnly(Fade(v, now), NO_MASTER, now);
    FadeTwice(v, now, now);
    CommandLaws.GetReadsSet(Fade(v, now), key, value, now);
    PlainSetPropagates(Fade(v, now), key, value, now);
  }

  lemma {:induction false} NothingServed(v: View, isReplica: bool)
    ensures ServedTo(v, [], isReplica) == v && PropagatedBy(v, [], isReplica) == []
    ensures RoleIn([], isReplica) == isReplica && Admitted([], isReplica) == []
    ensures Served(v, []) == v && ArgsOf(LogOf(v, [])) == []
  {}

  lemma {:induction false} PlainSetPropagates(v: View, key: Bytes, value: Bytes, now: nat)
    ensures var out := Run(v, [Ascii("SET"), key, value], now);
            out.dirty && out.propagate == [Ascii("SET"), key, value]
  {
    hide VerbOf;
    hide Upper;
    hide Ascii;
    SetName();
  }

  /** A master told to follow another server refuses what its client writes next. */
  lemma {:induction false} DemotedThenRefuses(v: View, args: Args, key: Bytes, value: Bytes, now: nat)
    requires Demotes(args)
    ensures var history := [Event(args, now), Event([Ascii("SET"), key, value], now)];
            && ServedTo(v, history, false) == Fade(v, now)
            && PropagatedBy(v, history, false) == []
  {
    hide Run;
    hide VerbOf;
    hide Upper;
    hide IsWriteCommand;
    hide ServedTo;
    hide PropagatedBy;
    hide RoleIn;
    hide ToInt64;
    var write := [Ascii("SET"), key, value];
    var first := Event(args, now);
    OneMoreCommand(v, [], false, first);
    OneMoreCommand(v, [first], false, Event(write, now));
    assert [] + [first] == [first] && [first] + [Event(write, now)] == [first, Event(write, now)];
    NothingServed(v, false);
    DemotingChangesNothing(Fade(v, now), args, now);
    FadeTwice(v, now, now);
    ReplicaIsReadOnly(Fade(v, now), write, now);
  }

  lemma {:induction false} DemotingChangesNothing(v: View, args: Args, now: nat)
    requires Demotes(args)
    ensures Run(v, args, now).view == v && !Run(v, args, now).dirty
  {
    hide VerbOf;
    hide ToInt64;
  }

  // ------------------------------------------------------------------
  // Batches
  // ------------------------------------------------------------------

  /** The commands of a batch at the clock readings they were run at. */
  function Timed(commands: seq<Args>, clock: nat -> nat): (r: seq<Event>)
    ensures |r| == |commands|
  {
    seq(|commands|, i requires 0 <= i < |commands| => Event(commands[i], clock(i)))
  }

  ghost predicate Monotone(clock: nat -> nat) { forall i: nat, j: nat :: i <= j ==> clock(i) <= clock(j) }

  lemma {:induction false} TimedInOrder(commands: seq<Args>, clock: nat -> nat)
    requires Monotone(clock)
    ensures InOrder(Timed(commands, clock)) && LastAt(Timed(commands, clock)) <= clock(|commands|)
  {}

  lemma {:induction false} TimedOneMore(commands: seq<Args>, args: Args, clock: nat -> nat)
    ensures Timed(commands + [args], clock) == Timed(commands, clock) + [Event(args, clock(|commands|))]
  {}

  /** A batch, whatever the roles: a canonical log tells the view it left. */
  lemma {:induction false} BatchIsTold(before: View, commands: seq<Args>, clock: nat -> nat, isReplica: bool)
    requires Storable(before) && Monotone(clock) && Transmissible(commands)
    requires Runnable(Timed(commands, clock), isReplica)
    ensures var history := Timed(commands, clock);
            var log := LogOf(before, Admitted(history, isReplica));
            && CanonicalLog(log) && PropagatedBy(before, history, isReplica) == ArgsOf(log)
            && forall t: nat :: t >= clock(|commands|) ==>
                 Fade(ServedTo(before, history, isReplica), t) == Fade(Written(before, log), t)
  {
    hide InRange;
    hide WithinLimits;
    hide Storable;
    hide Written;
    hide LogOf;
    hide Admitted;
    hide ServedTo;
    hide PropagatedBy;
    hide RoleIn;
    hide CanonicalLog;
    var history := Timed(commands, clock);
    TimedInOrder(commands, clock);
    HistoryIsTold(before, history, isReplica, clock(|commands|));
    forall t: nat | t >= clock(|commands|)
      ensures Fade(ServedTo(before, history, isReplica), t)
           == Fade(Written(before, LogOf(before, Admitted(history, isReplica))), t)
    {
      HistoryIsTold(before, history, isReplica, t);
    }
  }

  lemma {:induction false} ReplicaBatch(before: View, commands: seq<Args>, clock: nat -> nat, isReplica: bool)
    requires Monotone(clock) && ReplicaThroughout(Timed(commands, clock), isReplica)
    ensures var history := Timed(commands, clock);
            && PropagatedBy(before, history, isReplica) == []
            && forall t: nat :: t >= clock(|commands|) ==>
                 Fade(ServedTo(before, history, isReplica), t) == Fade(before, t)
  {
    hide ServedTo;
    hide PropagatedBy;
    hide RoleIn;
    var history := Timed(commands, clock);
    TimedInOrder(commands, clock);
    ReplicaServes(before, history, isReplica, clock(|commands|));
    forall t: nat | t >= clock(|commands|)
      ensures Fade(ServedTo(before, history, isReplica), t) == Fade(before, t)
    {
      ReplicaServes(before, history, isReplica, t);
    }
  }
}
