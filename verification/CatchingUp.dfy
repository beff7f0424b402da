/** Progress of replication: a link that is up is never stuck, its own steps come
    to an end, and where they end the replica shows exactly what the master shows. */
module CatchingUp {
  import opened ByteStrings
  import opened Keyspace
  import opened Resp
  import opened Framing
  import opened Commands
  import opened Replay
  import opened Serving
  import opened Receiving
  import opened Replication
  import Rdb
  import Persistence

  // ------------------------------------------------------------------
  // A link's own steps
  // ------------------------------------------------------------------

  /** The steps by which bytes on their way become applied commands. */
  predicate Advancing(a: NodeAction)
  {
    a.TakeLine? || a.TakePayload? || a.TakeCommand? || a.RunTask? || (a.Deliver? && a.n > 0)
  }

  predicate Up(n: Node) { n.attached && !n.phase.Down? }

  /** A byte has to be received and parsed, and what it becomes has to be run. */
  function Work(n: Node): nat { 3 * |n.inFlight| + 2 * |n.buffer| + |n.queue| }

  /** Every advancing step leaves less to do, and the link up. */
  lemma {:induction false} AdvancingFinishes(now: nat, m: Master, n: Node, a: NodeAction)
    requires MasterInv(now, m) && now <= n.clock && NodeInv(n.clock, m, n) && Up(n)
    requires NodeEnabled(now, m, n, a) && Advancing(a)
    ensures Up(NodeStep(now, m, n, a)) && Work(NodeStep(now, m, n, a)) < Work(n)
    ensures NodeStep(now, m, n, a).clock == n.clock
  {
    hide MasterInv;
    hide NodeInv;
    hide Parse;
    hide FindCrlf;
    hide AfterCommand;
    hide AfterLine;
    hide AfterPayload;
    hide ViewOf;
    MasterKept(now, n.clock, m);
    SameClock(now, m, n, a);
    match a
    case TakeLine =>
      TakeLineKeeps(n.clock, m, n);
      LineShorter(n);
    case TakePayload =>
      PayloadKeeps(n.clock, m, n);
      PayloadShorter(n.clock, m, n);
    case TakeCommand => CommandShorter(n);
    case Deliver(k) =>
    case RunTask(_) =>
  }

  lemma {:induction false} LineShorter(n: Node)
    requires FindCrlf(n.buffer, 0).Some? && !AfterLine(n).phase.Down?
    ensures var n' := AfterLine(n);
            && n'.attached == n.attached && n'.inFlight == n.inFlight && n'.queue == n.queue
            && |n'.buffer| < |n.buffer|
  {}

  lemma {:induction false} PayloadShorter(now: nat, m: Master, n: Node)
    requires NodeInv(now, m, n) && n.phase.AwaitPayload? && |n.buffer| >= n.phase.size
    requires AfterPayload(n).phase.Streaming?
    ensures var n' := AfterPayload(n);
            && n'.attached == n.attached && n'.inFlight == n.inFlight
            && |n'.queue| == |n.queue| + 1 && |n'.buffer| < |n.buffer|
  {
    hide Rdb.Parse;
    hide StoreInv;
    hide QueueInv;
    hide SnapshotOf;
    hide Expected;
    assert n.phase.size == |Rdb.Serialize(n.records)|;
    PayloadNotEmpty(n.records);
  }

  lemma {:induction false} PayloadNotEmpty(records: seq<Record>)
    requires Rdb.Saveable(records)
    ensures Rdb.Serialize(records) != []
  {
    hide Rdb.Serialize;
    Rdb.SnapshotShape(records);
  }

  lemma {:induction false} CommandShorter(n: Node)
    requires Parse(n.buffer).Ok?
    ensures var n' := AfterCommand(n);
            && n'.attached == n.attached && n'.phase == n.phase && n'.inFlight == n.inFlight
            && |n'.queue| <= |n.queue| + 1 && |n'.buffer| < |n.buffer|
  {
    hide Parse;
    hide VerbOf;
    hide Swallowed;
    ConsumedWithinInput(n.buffer);
  }

  // ------------------------------------------------------------------
  // Never stuck
  // ------------------------------------------------------------------

  /** A store that shows a given view. */
  function DbOf(v: View): Db
  {
    Db(map k | k in v :: v[k].value, map k | k in v && v[k].deadline.Some? :: v[k].deadline.value)
  }

  lemma {:induction false} DbShows(v: View, now: nat)
    requires Current(v, now)
    ensures Consistent(DbOf(v)) && ViewOf(DbOf(v), now) == v
  {}

  lemma {:induction false} TaskViewIsCurrent(now: nat, m: Master, n: Node)
    requires MasterInv(now, m) && NodeInv(now, m, n) && n.queue != []
    ensures Current(TaskView(n.queue[0], ViewOf(n.db, now), now), now)
  {
    hide Run;
    hide LinkInv;
    hide Expected;
    hide SnapshotOf;
    hide Storable;
    hide Canonical;
    hide Written;
    var task := n.queue[0];
    var v := ViewOf(n.db, now);
    ViewIsCurrent(n.db, now);
    match task
    case LoadAll(records, from) => LoadedIsCurrent(records, now);
    case ApplyOne(args, index) =>
      assert Canonical(m.log[index].args);
      CanonicalWrites(args);
      CanonicalRuns(v, args, now);
      ApplyKeepsStorable(v, args, now);
  }

  lemma {:induction false} LoadedIsCurrent(records: seq<Record>, now: nat)
    ensures Current(Loaded(map[], records, now), now)
    decreases |records|
  {
    if records != [] {
      LoadedIsCurrent(records[..|records| - 1], now);
    }
  }

  /** With all bytes received, the line waited for is there. */
  lemma {:induction false} LineIsThere(now: nat, m: Master, n: Node)
    requires MasterInv(now, m) && LinkInv(now, m, n) && n.inFlight == []
    requires n.phase.AwaitResync? || n.phase.AwaitSize?
    ensures FindCrlf(n.buffer, 0).Some?
  {
    hide FindCrlf;
    hide StreamBytes;
    hide SnapshotOf;
    hide OffsetAt;
    hide ResyncText;
    hide LengthLine;
    hide Digits;
    hide Rdb.Serialize;
    hide Rdb.Saveable;
    assert n.buffer + [] == n.buffer;
    var payload := Rdb.Serialize(n.records);
    var stream := StreamBytes(m.log, n.taken, n.sent);
    if n.phase.AwaitResync? {
      var text := ResyncText(m.replid, OffsetAt(m.log, n.snap.base));
      ResyncTextOneLine(m.replid, OffsetAt(m.log, n.snap.base));
      LineEnds(text, LengthLine(DOLLAR, |payload|) + payload + stream);
    } else {
      SizeLineEnds(payload, stream);
    }
  }

  lemma {:induction false} SizeLineEnds(payload: Bytes, stream: Bytes)
    ensures FindCrlf(LengthLine(DOLLAR, |payload|) + payload + stream, 0).Some?
  {
    hide FindCrlf;
    hide Digits;
    var text := [DOLLAR] + Digits(|payload|);
    HeaderOneLine(|payload|);
    assert LengthLine(DOLLAR, |payload|) + payload + stream == text + CRLF + (payload + stream);
    LineEnds(text, payload + stream);
  }

  /** With all bytes received, an unfinished stream parses. */
  lemma {:induction false} CommandIsThere(now: nat, m: Master, n: Node)
    requires MasterInv(now, m) && LinkInv(now, m, n) && n.inFlight == [] && n.phase.Streaming?
    ensures if n.taken < n.sent then Parse(n.buffer).Ok? else n.buffer == []
  {
    hide Parse;
    hide ViewAt;
    hide ViewOf;
    hide Storable;
    hide SnapshotOf;
    hide OffsetAt;
    hide Encode;
    hide StreamBytes;
    hide Canonical;
    hide Rdb.Serialize;
    hide Rdb.Saveable;
    assert n.buffer + [] == n.buffer;
    if n.taken < n.sent {
      var args := m.log[n.taken].args;
      assert Canonical(args);
      CanonicalFits(args);
      StreamSplit(m.log, n.taken, n.taken + 1, n.sent);
      StreamOne(m.log, n.taken);
      EncodeParses(args, StreamBytes(m.log, n.taken + 1, n.sent));
    } else {
      StreamNone(m.log, n.taken);
    }
  }

  lemma {:induction false} CanonicalFits(args: Args)
    requires Canonical(args)
    ensures WithinLimits(args)
  {}

  /** A link that is up and not quiet can always advance. */
  lemma {:induction false} NeverStuck(now: nat, m: Master, n: Node) returns (a: NodeAction)
    requires MasterInv(now, m) && now <= n.clock && NodeInv(n.clock, m, n) && Up(n) && !Quiet(n)
    ensures Advancing(a) && NodeEnabled(now, m, n, a)
  {
    hide MasterInv;
    hide StoreInv;
    hide QueueInv;
    hide SnapshotOf;
    hide FindCrlf;
    hide Parse;
    hide TaskView;
    hide StreamBytes;
    hide OffsetAt;
    hide Rdb.Saveable;
    hide Rdb.Serialize;
    var c := n.clock;
    MasterKept(now, c, m);
    if n.inFlight != [] {
      a := Deliver(|n.inFlight|);
    } else if n.phase.AwaitResync? || n.phase.AwaitSize? {
      LineIsThere(c, m, n);
      a := TakeLine;
    } else if n.phase.AwaitPayload? {
      assert n.buffer + [] == n.buffer;
      a := TakePayload;
    } else {
      CommandIsThere(c, m, n);
      if n.taken < n.sent {
        a := TakeCommand;
      } else {
        var v := TaskView(n.queue[0], ViewOf(n.db, c), c);
        TaskViewIsCurrent(c, m, n);
        DbShows(v, c);
        a := RunTask(DbOf(v));
      }
    }
  }

  // ------------------------------------------------------------------
  // Until all is quiet
  // ------------------------------------------------------------------

  /** Steps leading from one state to another, from wherever it starts. */
  ghost predicate IsPath(states: seq<System>, actions: seq<Action>)
  {
    && |states| == |actions| + 1
    && forall i :: 0 <= i < |actions| ==>
         Enabled(states[i], actions[i]) && states[i + 1] == Step(states[i], actions[i])
  }

  lemma {:induction false} OneStepMore(s: System, a: Action, states: seq<System>, actions: seq<Action>)
    requires Enabled(s, a) && IsPath(states, actions) && states[0] == Step(s, a)
    ensures IsPath([s] + states, [a] + actions)
  {
    hide Enabled;
    hide Step;
    var all, steps := [s] + states, [a] + actions;
    forall i | 0 <= i < |steps|
      ensures Enabled(all[i], steps[i]) && all[i + 1] == Step(all[i], steps[i])
    {
      if i > 0 {
        assert all[i] == states[i - 1] && steps[i] == actions[i - 1] && all[i + 1] == states[i];
      }
    }
  }

  /** Since its resync the master has written nothing, and the load of that resync
      is the last thing waiting to be run, or has been. */
  ghost predicate Fresh(m: Master, n: Node)
  {
    && n.taken == n.sent == |m.log|
    && (n.phase.Streaming? ==>
          if n.queue == [] then ViewOf(n.db, n.clock) == ViewAt(m, |m.log|, n.clock)
          else n.queue[|n.queue| - 1].LoadAll?)
  }

  lemma {:induction false} FreshStreamIsEmpty(now: nat, m: Master, n: Node)
    requires NodeInv(now, m, n) && Fresh(m, n) && n.phase.Streaming?
    ensures !Parse(n.buffer).Ok?
  {
    hide StoreInv;
    hide QueueInv;
    hide SnapshotOf;
    hide StreamBytes;
    hide OffsetAt;
    hide Rdb.Saveable;
    hide Rdb.Serialize;
    StreamNone(m.log, n.taken);
    assert n.buffer + n.inFlight == [];
    assert n.buffer == [];
    Persistence.NothingIsIncomplete();
  }

  lemma {:induction false} FreshStays(now: nat, m: Master, n: Node, a: NodeAction)
    requires MasterInv(now, m) && now <= n.clock && NodeInv(n.clock, m, n) && Up(n) && Fresh(m, n)
    requires NodeEnabled(now, m, n, a) && Advancing(a) && !a.TakeCommand?
    ensures Fresh(m, NodeStep(now, m, n, a))
  {
    hide MasterInv;
    hide NodeInv;
    hide FindCrlf;
    hide Parse;
    hide Rdb.Parse;
    hide TaskView;
    hide ViewAt;
    hide ViewOf;
    MasterKept(now, n.clock, m);
    match a
    case TakeLine => TakeLineKeeps(n.clock, m, n);
    case TakePayload =>
      PayloadKeeps(n.clock, m, n);
      SnapIsTaken(n.clock, m, n);
    case Deliver(k) =>
    case RunTask(db') =>
      if n.phase.Streaming? && n.queue[1..] == [] {
        LastLoadShows(m, n, db');
      }
  }

  lemma {:induction false} LastLoadShows(m: Master, n: Node, db': Db)
    requires NodeInv(n.clock, m, n) && n.phase.Streaming? && n.taken == |m.log|
    requires |n.queue| == 1 && n.queue[0].LoadAll?
    requires ViewOf(db', n.clock) == TaskView(n.queue[0], ViewOf(n.db, n.clock), n.clock)
    ensures ViewOf(db', n.clock) == ViewAt(m, |m.log|, n.clock)
  {
    hide LinkInv;
    hide StoreInv;
    hide SnapshotOf;
    hide TaskView;
    hide ViewAt;
    hide ViewOf;
    var task := n.queue[0];
    assert SnapshotOf(n.clock, m, task.from, task.records);
    SnapshotInLog(n.clock, m, task);
    LoadAllShows(n.clock, m, task, ViewOf(n.db, n.clock));
  }

  lemma {:induction false} SnapIsTaken(now: nat, m: Master, n: Node)
    requires NodeInv(now, m, n) && n.phase.AwaitPayload?
    ensures n.snap.base == n.taken
  {
    hide StoreInv;
    hide QueueInv;
    hide SnapshotOf;
    hide Expected;
  }

  /** Whatever is on its way, a link left alone comes to rest. */
  lemma {:induction false} ComesToRest(s: System, id: nat) returns (states: seq<System>, actions: seq<Action>)
    requires Inv(s) && id in s.nodes && Up(s.nodes[id])
    ensures IsPath(states, actions) && states[0] == s
    ensures var last := states[|actions|];
            && Inv(last) && id in last.nodes
            && last == s.(nodes := s.nodes[id := last.nodes[id]])
            && Up(last.nodes[id]) && Quiet(last.nodes[id]) && last.nodes[id].clock == s.nodes[id].clock
            && (Fresh(s.master, s.nodes[id]) ==> Fresh(s.master, last.nodes[id]))
    decreases Work(s.nodes[id])
  {
    hide MasterInv;
    hide NodeInv;
    hide NodeEnabled;
    hide NodeStep;
    hide Advancing;
    hide Fresh;
    hide Work;
    hide Quiet;
    hide Up;
    var n := s.nodes[id];
    if Quiet(n) {
      states, actions := [s], [];
      assert s.nodes[id := n] == s.nodes;
    } else {
      var a := NeverStuck(s.now, s.master, n);
      var n' := NodeStep(s.now, s.master, n, a);
      AdvancingFinishes(s.now, s.master, n, a);
      if Fresh(s.master, n) {
        FreshAdvances(s.now, s.master, n, a);
      }
      var act := On(id, a);
      StepKeeps(s, act);
      var s' := Step(s, act);
      states, actions := ComesToRest(s', id);
      OneStepMore(s, act, states, actions);
      states, actions := [s] + states, [act] + actions;
    }
  }

  lemma {:induction false} FreshAdvances(now: nat, m: Master, n: Node, a: NodeAction)
    requires MasterInv(now, m) && now <= n.clock && NodeInv(n.clock, m, n) && Up(n) && Fresh(m, n)
    requires NodeEnabled(now, m, n, a) && Advancing(a)
    ensures Fresh(m, NodeStep(now, m, n, a))
  {
    hide MasterInv;
    hide NodeInv;
    hide FindCrlf;
    hide Parse;
    hide TaskView;
    hide NodeStep;
    hide ViewOf;
    if n.phase.Streaming? {
      FreshStreamIsEmpty(n.clock, m, n);
    }
    FreshStays(now, m, n, a);
  }

  // ------------------------------------------------------------------
  // From every state of every run
  // ------------------------------------------------------------------

  /** Every view can be listed. */
  lemma {:induction false} SomeListing(v: View, now: nat) returns (records: seq<Record>)
    requires Current(v, now)
    ensures Lists(records, v)
    decreases |v|
  {
    if v == map[] {
      records := [];
    } else {
      var k :| k in v;
      var rest := v - {k};
      var e := v[k];
      records := SomeListing(rest, now);
      var r := Record(k, e.value, if e.deadline.Some? then e.deadline.value else NO_EXPIRY);
      ListsOneMore(records, rest, r);
      assert rest[k := RecordEntry(r)] == v;
      records := records + [r];
    }
  }

  /** A server that is down can ask for a resync, and then stands at the log's end. */
  lemma {:induction false} CanAttach(now: nat, m: Master, n: Node) returns (records: seq<Record>)
    requires MasterInv(now, m) && n.phase.Down? && |ViewOf(m.db, now)| < Rdb.TWO_64
    ensures Lists(records, ViewOf(m.db, now)) && Rdb.Saveable(records)
    ensures var n' := AfterAttach(m, n, records, now);
            Up(n') && Fresh(m, n') && n'.clock == n.clock
  {
    hide Lists;
    hide Storable;
    hide ViewOf;
    hide Written;
    hide Rdb.Saveable;
    hide Rdb.Serialize;
    var v := ViewOf(m.db, now);
    ViewIsCurrent(m.db, now);
    records := SomeListing(v, now);
    Persistence.ListsCounts(records, v);
    Persistence.ListedIsSaveable(records, v, now);
  }

  /** At rest and fresh, the replica shows what the master shows. */
  lemma {:induction false} RestShowsTheMaster(now: nat, m: Master, n: Node)
    requires MasterInv(now, m) && now <= n.clock && NodeInv(n.clock, m, n)
    requires Up(n) && Quiet(n) && Fresh(m, n)
    ensures ViewOf(n.db, n.clock) == ViewOf(m.db, n.clock)
    ensures n.applied == Some(|m.log|) && n.offset == m.offset
  {
    hide MasterInv;
    hide NodeInv;
    hide ViewAt;
    hide ViewOf;
    MasterKept(now, n.clock, m);
    QuietIsAtTheEnd(n.clock, m, n);
  }

  /** From every state in which every step so far kept the protocol, any server can
      come to show exactly what the master shows, by steps of its own alone. */
  lemma {:induction false} CanCatchUp(s: System, id: nat) returns (states: seq<System>, actions: seq<Action>)
    requires Inv(s) && id in s.nodes && |ViewOf(s.master.db, s.now)| < Rdb.TWO_64
    ensures IsPath(states, actions) && states[0] == s
    ensures var last := states[|actions|];
            && id in last.nodes && last == s.(nodes := s.nodes[id := last.nodes[id]])
            && var n := last.nodes[id];
            && Up(n) && Quiet(n) && n.applied == Some(|s.master.log|) && n.offset == s.master.offset
            && n.clock == s.nodes[id].clock && ViewOf(n.db, n.clock) == ViewOf(s.master.db, n.clock)
    decreases if s.nodes[id].phase.Down? then 0 else 1
  {
    hide MasterInv;
    hide NodeInv;
    hide Fresh;
    hide Quiet;
    hide Up;
    hide ViewOf;
    hide Lists;
    hide Rdb.Saveable;
    hide AfterAttach;
    if s.nodes[id].phase.Down? {
      var records := CanAttach(s.now, s.master, s.nodes[id]);
      var a := On(id, Attach(records));
      StepKeeps(s, a);
      var s' := Step(s, a);
      states, actions := ComesToRest(s', id);
      RestShowsTheMaster(s.now, s.master, states[|actions|].nodes[id]);
      OneStepMore(s, a, states, actions);
      states, actions := [s] + states, [a] + actions;
    } else {
      var a := On(id, Disconnect);
      StepKeeps(s, a);
      states, actions := CanCatchUp(Step(s, a), id);
      OneStepMore(s, a, states, actions);
      states, actions := [s] + states, [a] + actions;
    }
  }

  /** Every run can be continued so that the given server shows exactly what the
      master shows, whatever happened before. */
  lemma {:induction false} EveryRunCanCatchUp(states: seq<System>, actions: seq<Action>, id: nat)
    returns (more: seq<System>, steps: seq<Action>)
    requires IsRun(states, actions) && id in states[|actions|].nodes
    requires var s := states[|actions|]; |ViewOf(s.master.db, s.now)| < Rdb.TWO_64
    ensures IsRun(states + more, actions + steps)
    ensures var s := states[|actions|];
            var last := (states + more)[|actions + steps|];
            && last.master == s.master && last.now == s.now && last.nodes.Keys == s.nodes.Keys
            && (forall other :: other in s.nodes && other != id ==> last.nodes[other] == s.nodes[other])
            && var n := last.nodes[id];
            && Up(n) && Quiet(n) && n.applied == Some(|s.master.log|) && n.offset == s.master.offset
            && ViewOf(n.db, n.clock) == ViewOf(s.master.db, n.clock)
  {
    hide Inv;
    hide Initial;
    hide Enabled;
    hide Step;
    hide ViewOf;
    RunKeeps(states, actions, |actions|);
    var path;
    path, steps := CanCatchUp(states[|actions|], id);
    more := path[1..];
    RunGoesOn(states, actions, path, steps);
  }

  lemma {:induction false} RunGoesOn(
    states: seq<System>, actions: seq<Action>, path: seq<System>, steps: seq<Action>)
    requires IsRun(states, actions) && IsPath(path, steps) && path[0] == states[|actions|]
    ensures IsRun(states + path[1..], actions + steps)
    ensures (states + path[1..])[|actions + steps|] == path[|steps|]
  {
    hide Initial;
    hide Enabled;
    hide Step;
    var all, acts := states + path[1..], actions + steps;
    forall i | 0 <= i < |acts|
      ensures Enabled(all[i], acts[i]) && all[i + 1] == Step(all[i], acts[i])
    {
      if i >= |actions| {
        var j := i - |actions|;
        assert all[i] == path[j] && all[i + 1] == path[j + 1] && acts[i] == steps[j];
      }
    }
  }

  lemma {:induction false} PathGoesOn(
    states: seq<System>, actions: seq<Action>, path: seq<System>, steps: seq<Action>)
    requires IsPath(states, actions) && IsPath(path, steps) && path[0] == states[|actions|]
    ensures IsPath(states + path[1..], actions + steps)
    ensures (states + path[1..])[|actions + steps|] == path[|steps|]
  {
    hide Enabled;
    hide Step;
    var all, acts := states + path[1..], actions + steps;
    forall i | 0 <= i < |acts|
      ensures Enabled(all[i], acts[i]) && all[i + 1] == Step(all[i], acts[i])
    {
      if i >= |actions| {
        var j := i - |actions|;
        assert all[i] == path[j] && all[i + 1] == path[j + 1] && acts[i] == steps[j];
      }
    }
  }
}
