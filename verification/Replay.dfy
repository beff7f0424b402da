/** Running the canonical log later, on another store: what the append-only file
    and the replication stream rely on.  A late run never shows a key, a value
    or a deadline the original does not, and it shows the same view exactly when
    no deadline was moved past the moment its predecessor had already expired. */
module Replay {
  import opened ByteStrings
  import opened Keyspace
  import opened Resp
  import opened Commands
  import CommandLaws

  // ------------------------------------------------------------------
  // One write, run late
  // ------------------------------------------------------------------

  /** Run at `late`, the write finds the key already dead by its old deadline and
      does nothing, while the original gave it a deadline still ahead, or none. */
  predicate Lossy(v: View, w: Write, late: int)
  {
    && w.MoveTo? && w.key in v && v[w.key].deadline.Some?
    && v[w.key].deadline.value <= late
    && (w.deadline.None? || w.deadline.value > late)
  }

  /** The write takes away a deadline or moves it further off. */
  predicate Lengthens(v: View, w: Write)
  {
    && w.MoveTo? && w.key in v && v[w.key].deadline.Some?
    && (w.deadline.None? || w.deadline.value > v[w.key].deadline.value)
  }

  lemma {:induction false} LateApply(a: View, b: View, w: Write, t: int, late: int)
    requires t <= late && Current(a, t) && Within(b, Fade(a, late))
    ensures Within(Apply(b, w, late), Fade(Apply(a, w, t), late))
  {}

  lemma {:induction false} LateApplyExactly(a: View, w: Write, t: int, late: int)
    requires t <= late && Current(a, t)
    ensures Apply(Fade(a, late), w, late) == Fade(Apply(a, w, t), late) <==> !Lossy(a, w, late)
  {
    var b := Fade(a, late);
    var original := Fade(Apply(a, w, t), late);
    var replayed := Apply(b, w, late);
    LateApply(a, b, w, t, late);
    if Lossy(a, w, late) {
      assert w.key in original && w.key !in replayed;
    } else {
      forall k | k in original ensures k in replayed {}
      assert original == replayed;
    }
  }

  /** Run early instead, at `early`, on the view held then: it shows nothing the original
      does not show after the write if and only if nothing it shows is dead by then.
      A moved deadline is one the original found its key alive for. */
  lemma {:induction false} EarlyApplyExactly(v: View, w: Write, early: int, t: int)
    requires early <= t && (w.MoveTo? ==> w.key in Fade(v, t))
    ensures Within(Apply(Fade(v, early), w, early), Fade(Apply(Fade(v, t), w, t), early)) <==>
            Current(Apply(Fade(v, early), w, early), t)
  {
    var a, b := Apply(Fade(v, t), w, t), Apply(Fade(v, early), w, early);
    if Current(b, t) {
      forall k | k in b ensures k in Fade(a, early) && Fade(a, early)[k] == b[k] {
        assert Alive(b[k], t);
      }
    } else {
      var k :| k in b && !Alive(b[k], t);
      assert k !in a || a[k] != b[k];
    }
  }

  // ------------------------------------------------------------------
  // A history of client commands and the log it leaves
  // ------------------------------------------------------------------

  datatype Event = Event(args: Args, at: nat)

  ghost predicate InOrder(events: seq<Event>)
  {
    forall i, j :: 0 <= i < j < |events| ==> events[i].at <= events[j].at
  }

  function LastAt(events: seq<Event>): nat { if events == [] then 0 else events[|events| - 1].at }

  /** Commands as they come out of the parser, at readings of one clock. */
  ghost predicate ClientHistory(history: seq<Event>)
  {
    && InOrder(history)
    && forall i :: 0 <= i < |history| ==>
         WithinLimits(history[i].args) && InRange(history[i].args, history[i].at)
  }

  /** The view of a store that ran the history from `v`. */
  ghost function Served(v: View, history: seq<Event>): View
  {
    if history == [] then v
    else
      var last := history[|history| - 1];
      Run(Fade(Served(v, history[..|history| - 1]), last.at), last.args, last.at).view
  }

  /** What it propagated meanwhile, in order, with the time of each write. */
  ghost function LogOf(v: View, history: seq<Event>): seq<Event>
  {
    if history == [] then []
    else
      var front := history[..|history| - 1];
      var last := history[|history| - 1];
      var out := Run(Fade(Served(v, front), last.at), last.args, last.at);
      LogOf(v, front) + if out.dirty then [Event(out.propagate, last.at)] else []
  }

  ghost predicate CanonicalLog(log: seq<Event>)
  {
    InOrder(log) && forall i :: 0 <= i < |log| ==> Canonical(log[i].args)
  }

  /** The writes of a log carried out at the times they were made. */
  function Written(v: View, log: seq<Event>): View
  {
    if log == [] then v
    else
      var last := log[|log| - 1];
      var before := Fade(Written(v, log[..|log| - 1]), last.at);
      match WriteOf(last.args)
      case Some(w) => Apply(before, w, last.at)
      case None => before
  }

  lemma {:induction false} ServedIsStorable(v: View, history: seq<Event>)
    requires Storable(v) && ClientHistory(history)
    ensures Storable(Served(v, history))
    ensures history != [] ==> Current(Served(v, history), LastAt(history))
    decreases |history|
  {
    hide Run;
    hide InRange;
    if history != [] {
      var front := history[..|history| - 1];
      var last := history[|history| - 1];
      ServedIsStorable(v, front);
      FadeCurrent(Served(v, front), last.at);
      RunKeepsStorable(Fade(Served(v, front), last.at), last.args, last.at);
    }
  }

  /** The log is canonical and its writes alone lead to the same view. */
  lemma {:induction false} LogTellsAll(v: View, history: seq<Event>, t: nat)
    requires Storable(v) && ClientHistory(history) && LastAt(history) <= t
    ensures CanonicalLog(LogOf(v, history)) && LastAt(LogOf(v, history)) <= LastAt(history)
    ensures Fade(Written(v, LogOf(v, history)), t) == Fade(Served(v, history), t)
    decreases |history|
  {
    hide Run;
    hide InRange;
    hide Canonical;
    hide Apply;
    if history != [] {
      var front := history[..|history| - 1];
      var last := history[|history| - 1];
      var before := Fade(Served(v, front), last.at);
      var log := LogOf(v, front);
      LogTellsAll(v, front, last.at);
      ServedIsStorable(v, front);
      FadeCurrent(Served(v, front), last.at);
      CommandCompiles(before, last.args, last.at);
      var out := Run(before, last.args, last.at);
      if out.dirty {
        LogOneMore(v, log, Event(out.propagate, last.at), before);
      } else {
        assert LogOf(v, history) == log;
        FadeTwice(Written(v, log), last.at, t);
      }
    }
  }

  lemma {:induction false} LogOneMore(v: View, log: seq<Event>, e: Event, before: View)
    requires CanonicalLog(log) && LastAt(log) <= e.at && Canonical(e.args)
    requires Fade(Written(v, log), e.at) == before
    ensures CanonicalLog(log + [e]) && LastAt(log + [e]) == e.at
    ensures Written(v, log + [e]) == Apply(before, WriteOf(e.args).value, e.at)
  {
    hide WriteOf;
    hide Apply;
    hide WithinLimits;
    hide IsWriteCommand;
    assert (log + [e])[..|log|] == log;
    assert log != [] ==> forall i :: 0 <= i < |log| ==> log[i].at <= LastAt(log);
  }

  // ------------------------------------------------------------------
  // Running the log late
  // ------------------------------------------------------------------

  /** Later, non-decreasing times at which the log is run. */
  ghost predicate Late(log: seq<Event>, times: seq<nat>)
  {
    && |times| == |log|
    && (forall i :: 0 <= i < |log| ==> log[i].at <= times[i])
    && (forall i, j :: 0 <= i < j < |times| ==> times[i] <= times[j])
  }

  function LastTime(times: seq<nat>): nat { if times == [] then 0 else times[|times| - 1] }

  /** The view after dispatching the logged commands at those times. */
  ghost function Replayed(v: View, log: seq<Event>, times: seq<nat>): View
    requires |times| == |log|
  {
    if log == [] then v
    else
      var n := |log| - 1;
      Run(Fade(Replayed(v, log[..n], times[..n]), times[n]), log[n].args, times[n]).view
  }

  lemma {:induction false} LateFront(log: seq<Event>, times: seq<nat>, n: nat)
    requires CanonicalLog(log) && Late(log, times) && n <= |log|
    ensures CanonicalLog(log[..n]) && Late(log[..n], times[..n])
    ensures n < |log| ==> LastTime(times[..n]) <= times[n]
  {
    hide Canonical;
  }

  lemma {:induction false} ReplayedLast(v: View, log: seq<Event>, times: seq<nat>)
    requires CanonicalLog(log) && Late(log, times) && log != []
    ensures var n := |log| - 1;
            Replayed(v, log, times) ==
            Apply(Fade(Replayed(v, log[..n], times[..n]), times[n]), WriteOf(log[n].args).value, times[n])
  {
    hide Run;
    hide WriteOf;
    hide Apply;
    var n := |log| - 1;
    assert Canonical(log[n].args);
    CanonicalRuns(Fade(Replayed(v, log[..n], times[..n]), times[n]), log[n].args, times[n]);
  }

  /** The original's state just before write `n`, at the time of that write. */
  function Before(v: View, log: seq<Event>, n: nat): View
    requires n < |log|
  {
    Fade(Written(v, log[..n]), log[n].at)
  }

  /** A late run never resurrects a key, changes a value or extends a deadline:
      at every time from then on its view lies within the original's. */
  lemma {:induction false} LateReplayWithin(v: View, start: View, log: seq<Event>, times: seq<nat>, t: nat)
    requires CanonicalLog(log) && Late(log, times) && LastTime(times) <= t
    requires Within(start, v)
    ensures Within(Fade(Replayed(start, log, times), t), Fade(Written(v, log), t))
    decreases |log|
  {
    hide Run;
    hide WriteOf;
    hide Apply;
    hide Canonical;
    if log == [] {
      FadeWithin(start, v, t);
    } else {
      var n := |log| - 1;
      var at, late := log[n].at, times[n];
      LateFront(log, times, n);
      LateReplayWithin(v, start, log[..n], times[..n], late);
      var a := Before(v, log, n);
      var b := Fade(Replayed(start, log[..n], times[..n]), late);
      assert Canonical(log[n].args);
      CanonicalWrites(log[n].args);
      FadeTwice(Written(v, log[..n]), at, late);
      FadeCurrent(Written(v, log[..n]), at);
      ReplayedLast(start, log, times);
      LateApply(a, b, WriteOf(log[n].args).value, at, late);
      FadeWithin(Replayed(start, log, times), Fade(Written(v, log), late), t);
      FadeTwice(Written(v, log), late, t);
    }
  }

  lemma {:induction false} CanonicalWrites(args: Args)
    requires Canonical(args)
    ensures WriteOf(args).Some?
  {}

  /** After write `n` the late run shows what the original shows. */
  ghost predicate AgreesAfter(v: View, log: seq<Event>, times: seq<nat>, n: nat)
    requires |times| == |log| && n <= |log|
  {
    n == 0 ||
    Replayed(v, log[..n], times[..n]) == Fade(Written(v, log[..n]), times[n - 1])
  }

  /** It shows the same after every write. */
  ghost predicate AgreesThroughout(v: View, log: seq<Event>, times: seq<nat>)
    requires |times| == |log|
  {
    forall n :: 0 <= n <= |log| ==> AgreesAfter(v, log, times, n)
  }

  ghost predicate LosesAt(v: View, log: seq<Event>, times: seq<nat>, n: nat)
    requires |times| == |log| && n < |log|
  {
    WriteOf(log[n].args).Some? && Lossy(Before(v, log, n), WriteOf(log[n].args).value, times[n])
  }

  lemma {:induction false} AgreementStep(v: View, log: seq<Event>, times: seq<nat>, n: nat)
    requires CanonicalLog(log) && Late(log, times) && n < |log|
    requires AgreesAfter(v, log, times, n)
    ensures AgreesAfter(v, log, times, n + 1) <==> !LosesAt(v, log, times, n)
  {
    hide Run;
    hide WriteOf;
    hide Apply;
    hide Lossy;
    hide Canonical;
    var before := Written(v, log[..n]);
    var at, late := log[n].at, times[n];
    var more, moreTimes := log[..n + 1], times[..n + 1];
    LateFront(log, times, n);
    LateFront(log, times, n + 1);
    assert more[..n] == log[..n] && moreTimes[..n] == times[..n];
    assert Canonical(log[n].args);
    CanonicalWrites(log[n].args);
    ReplayedLast(v, more, moreTimes);
    if n > 0 {
      FadeTwice(before, times[n - 1], late);
    }
    FadeTwice(before, at, late);
    FadeCurrent(before, at);
    LateApplyExactly(Before(v, log, n), WriteOf(log[n].args).value, at, late);
  }

  /** A late run agrees with the original throughout exactly when no write finds
      its key dead by the deadline it was meant to replace. */
  lemma {:induction false} LateReplayExactly(v: View, log: seq<Event>, times: seq<nat>)
    requires CanonicalLog(log) && Late(log, times)
    ensures AgreesThroughout(v, log, times) <==>
            forall n :: 0 <= n < |log| ==> !LosesAt(v, log, times, n)
  {
    hide AgreesAfter;
    hide LosesAt;
    if AgreesThroughout(v, log, times) {
      forall n | 0 <= n < |log| ensures !LosesAt(v, log, times, n) {
        assert AgreesAfter(v, log, times, n) && AgreesAfter(v, log, times, n + 1);
        AgreementStep(v, log, times, n);
      }
    }
    if forall n :: 0 <= n < |log| ==> !LosesAt(v, log, times, n) {
      forall n | 0 <= n <= |log| ensures AgreesAfter(v, log, times, n) {
        AgreesUpTo(v, log, times, n);
      }
    }
  }

  lemma {:induction false} AgreesUpTo(v: View, log: seq<Event>, times: seq<nat>, n: nat)
    requires CanonicalLog(log) && Late(log, times) && n <= |log|
    requires forall i :: 0 <= i < |log| ==> !LosesAt(v, log, times, i)
    ensures AgreesAfter(v, log, times, n)
    decreases n
  {
    hide LosesAt;
    hide Replayed;
    hide Written;
    hide CanonicalLog;
    if n > 0 {
      AgreesUpTo(v, log, times, n - 1);
      AgreementStep(v, log, times, n - 1);
    }
  }

  // ------------------------------------------------------------------
  // Which logs can be run late at any time
  // ------------------------------------------------------------------

  ghost predicate LengthensAt(v: View, log: seq<Event>, n: nat)
    requires n < |log|
  {
    WriteOf(log[n].args).Some? && Lengthens(Before(v, log, n), WriteOf(log[n].args).value)
  }

  lemma {:induction false} PersistCanonical(key: Bytes)
    requires |key| <= MAX_BULK
    ensures Canonical([Ascii("PERSIST"), key]) && WriteOf([Ascii("PERSIST"), key]) == Some(MoveTo(key, None))
  {
    hide VerbOf;
    hide Upper;
    hide IsWriteCommand;
    CommandLaws.PersistName();
    WriteNames([Ascii("PERSIST"), key]);
  }

  lemma {:induction false} SetCanonical(key: Bytes, value: Bytes, deadline: nat)
    requires |key| <= MAX_BULK && |value| <= MAX_BULK && deadline <= INT64_MAX
    ensures var args := CanonicalSet(key, value, deadline);
            Canonical(args) && WriteOf(args) == Some(PutKey(key, Entry(value, Some(deadline))))
  {
    hide WriteOf;
    hide WithinLimits;
    hide IsWriteCommand;
    CanonicalSetReads(key, value, deadline);
    WriteNames(CanonicalSet(key, value, deadline));
  }

  /** Equality does fail: a key is given a deadline and persisted at once, but the
      PERSIST is replayed after the deadline, and the key is gone. */
  lemma {:induction false} LatePersistLosesTheKey(key: Bytes, value: Bytes, at: nat, deadline: nat, late: nat)
    requires |key| <= MAX_BULK && |value| <= MAX_BULK
    requires at < deadline <= late && deadline <= INT64_MAX
    ensures var log := [Event(CanonicalSet(key, value, deadline), at), Event([Ascii("PERSIST"), key], at)];
            && CanonicalLog(log) && Late(log, [at, late])
            && Written(map[], log) == map[key := Entry(value, None)]
            && Replayed(map[], log, [at, late]) == map[]
  {
    hide Canonical;
    hide WriteOf;
    hide Run;
    hide CanonicalSet;
    SetCanonical(key, value, deadline);
    PersistCanonical(key);
    var log := [Event(CanonicalSet(key, value, deadline), at), Event([Ascii("PERSIST"), key], at)];
    var times := [at, late];
    assert log[..1] == [log[0]] && times[..1] == [at];
    assert log[..1][..0] == [] && times[..1][..0] == [];
    ReplayedLast(map[], log[..1], times[..1]);
    ReplayedLast(map[], log, times);
    assert Written(map[], log[..1]) == map[key := Entry(value, Some(deadline))];
    assert Replayed(map[], log[..1], times[..1]) == map[key := Entry(value, Some(deadline))];
  }

  /** Some late times at which write `n` is lost: dawdle until the old deadline. */
  lemma {:induction false} Dawdle(v: View, log: seq<Event>, n: nat) returns (times: seq<nat>)
    requires CanonicalLog(log) && n < |log| && LengthensAt(v, log, n)
    ensures Late(log, times) && LosesAt(v, log, times, n)
  {
    hide WriteOf;
    hide Canonical;
    var before := Before(v, log, n);
    FadeCurrent(Written(v, log[..n]), log[n].at);
    var oldDeadline := before[WriteOf(log[n].args).value.key].deadline.value;
    assert oldDeadline > log[n].at;
    times := seq(|log|, i requires 0 <= i < |log| =>
      if i < n || log[i].at > oldDeadline then log[i].at else oldDeadline);
  }

  /** A log can be run at any later times with the same views throughout exactly
      when none of its writes lengthens or removes a key's deadline. */
  lemma {:induction false} AnyLateReplayExactly(v: View, log: seq<Event>)
    requires CanonicalLog(log)
    ensures (forall times :: Late(log, times) ==> AgreesThroughout(v, log, times)) <==>
            (forall n :: 0 <= n < |log| ==> !LengthensAt(v, log, n))
  {
    hide AgreesThroughout;
    hide Canonical;
    if forall n :: 0 <= n < |log| ==> !LengthensAt(v, log, n) {
      forall times | Late(log, times) ensures AgreesThroughout(v, log, times) {
        forall n | 0 <= n < |log| ensures !LosesAt(v, log, times, n) {
          assert !LengthensAt(v, log, n);
        }
        LateReplayExactly(v, log, times);
      }
    }
    if forall times :: Late(log, times) ==> AgreesThroughout(v, log, times) {
      forall n | 0 <= n < |log| ensures !LengthensAt(v, log, n) {
        if LengthensAt(v, log, n) {
          var times := Dawdle(v, log, n);
          LateReplayExactly(v, log, times);
        }
      }
    }
  }

  /** From commands to replay in one statement: whatever clients sent, running the
      propagated forms later from the same start never shows more. */
  lemma {:induction false} HistoryReplaysWithin(v: View, history: seq<Event>, times: seq<nat>, t: nat)
    requires Storable(v) && ClientHistory(history)
    requires Late(LogOf(v, history), times) && LastTime(times) <= t && LastAt(history) <= t
    ensures Within(Fade(Replayed(v, LogOf(v, history), times), t), Fade(Served(v, history), t))
  {
    LogTellsAll(v, history, t);
    LateReplayWithin(v, v, LogOf(v, history), times, t);
  }

  /** And it shows the very same view when no logged write comes too late. */
  lemma {:induction false} HistoryReplaysExactly(v: View, history: seq<Event>, times: seq<nat>, t: nat)
    requires Storable(v) && ClientHistory(history)
    requires Late(LogOf(v, history), times) && LastTime(times) <= t && LastAt(history) <= t
    requires forall n :: 0 <= n < |LogOf(v, history)| ==> !LosesAt(v, LogOf(v, history), times, n)
    ensures Fade(Replayed(v, LogOf(v, history), times), t) == Fade(Served(v, history), t)
  {
    hide LosesAt;
    hide Written;
    hide Replayed;
    hide Served;
    hide LogOf;
    var log := LogOf(v, history);
    LogTellsAll(v, history, t);
    LateReplayExactly(v, log, times);
    assert AgreesAfter(v, log, times, |log|);
    AgreementIsEquality(v, log, times, t);
  }

  lemma {:induction false} AgreementIsEquality(v: View, log: seq<Event>, times: seq<nat>, t: nat)
    requires |times| == |log| && LastTime(times) <= t && AgreesAfter(v, log, times, |log|)
    ensures Fade(Replayed(v, log, times), t) == Fade(Written(v, log), t)
  {
    hide Run;
    hide WriteOf;
    hide Apply;
    if log != [] {
      assert log[..|log|] == log && times[..|log|] == times;
      FadeTwice(Written(v, log), times[|log| - 1], t);
    }
  }
}
