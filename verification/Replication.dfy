/** Master-replica replication as a state machine over its steps: client writes on
    the master, snapshots, bytes in flight, arbitrary chunking, posted tasks, local
    expiry, acknowledgements, lost connections and full resyncs, in any order. */
module Replication {
  import opened ByteStrings
  import opened Keyspace
  import opened Resp
  import opened Framing
  import opened Commands
  import opened Replay
  import opened Serving
  import opened Receiving
  import Rdb
  import Persistence

  // ------------------------------------------------------------------
  // State
  // ------------------------------------------------------------------

  /** `start` and `log` are history: the view at the beginning of the run and
      every write propagated since. */
  datatype Master = Master(db: Db, offset: nat, replid: Bytes, start: View, log: seq<Event>)

  /** What the replica's thread is waiting for on its connection. */
  datatype Phase =
    | Down
    | AwaitResync
    | AwaitSize(at: nat)
    | AwaitPayload(at: nat, size: nat)
    | Streaming

  /** The position in the log and the time at which a snapshot was taken. */
  datatype Snap = Snap(base: nat, at: nat)

  /** Work posted to the event loop.  `from` and `index` are history: which
      snapshot, or which write of the log, a posted task stems from. */
  datatype Task = LoadAll(records: seq<Record>, from: Snap) | ApplyOne(args: Args, index: nat)

  datatype Node = Node(
    clock: nat,         // the node's own clock
    db: Db,
    phase: Phase,
    buffer: Bytes,      // received, not yet parsed
    inFlight: Bytes,    // sent by the master, not yet received
    attached: bool,     // in the master's list of replicas
    offset: nat,        // replica_offset_
    acks: seq<nat>,     // acknowledgements on their way to the master
    acked: nat,         // ack_offset as the master knows it
    queue: seq<Task>,   // posted, not yet run
    // history of the present connection
    snap: Snap,
    records: seq<Record>,
    taken: nat,         // log position up to which commands have been parsed
    sent: nat,          // log position up to which commands have been sent
    // history of the store
    applied: Option<nat>)  // log position the store stands for, once resynced

  /** `now` is the master's clock. */
  datatype System = System(now: nat, master: Master, nodes: map<nat, Node>)

  // ------------------------------------------------------------------
  // Positions in the stream
  // ------------------------------------------------------------------

  ghost function StreamBytes(log: seq<Event>, i: nat, j: nat): Bytes
    requires i <= j <= |log|
  {
    EncodeAll(ArgsOf(log[i..j]))
  }

  /** The replication offset after the first `n` writes. */
  ghost function OffsetAt(log: seq<Event>, n: nat): nat
    requires n <= |log|
  {
    |EncodeAll(ArgsOf(log[..n]))|
  }

  /** What the master shows at stream position `p`, seen at time `t`. */
  ghost function ViewAt(m: Master, p: nat, t: nat): View
    requires p <= |m.log|
  {
    Fade(Written(m.start, m.log[..p]), t)
  }

  lemma {:induction false} StreamSplit(log: seq<Event>, i: nat, j: nat, k: nat)
    requires i <= j <= k <= |log|
    ensures StreamBytes(log, i, k) == StreamBytes(log, i, j) + StreamBytes(log, j, k)
  {
    assert ArgsOf(log[i..k]) == ArgsOf(log[i..j]) + ArgsOf(log[j..k]);
    EncodeAllSplit(ArgsOf(log[i..j]), ArgsOf(log[j..k]));
  }

  lemma {:induction false} StreamOne(log: seq<Event>, i: nat)
    requires i < |log|
    ensures StreamBytes(log, i, i + 1) == Encode(log[i].args)
  {
    assert ArgsOf(log[i..i + 1]) == [log[i].args];
    EncodeAllOne(log[i].args);
  }

  lemma {:induction false} StreamNone(log: seq<Event>, i: nat)
    requires i <= |log|
    ensures StreamBytes(log, i, i) == []
  {
    assert ArgsOf(log[i..i]) == [];
    assert EncodeEach([]) == [];
  }

  lemma {:induction false} StreamEmpty(log: seq<Event>, i: nat, j: nat)
    requires i <= j <= |log|
    ensures StreamBytes(log, i, j) == [] ==> i == j
  {
    hide StreamBytes;
    if i < j {
      StreamSplit(log, i, i + 1, j);
      StreamOne(log, i);
    }
  }

  lemma {:induction false} OffsetIsStream(log: seq<Event>, i: nat, j: nat)
    requires i <= j <= |log|
    ensures OffsetAt(log, j) == OffsetAt(log, i) + |StreamBytes(log, i, j)|
  {
    assert log[..j] == log[0..j] && log[..i] == log[0..i];
    StreamSplit(log, 0, i, j);
  }

  // ------------------------------------------------------------------
  // Steps
  // ------------------------------------------------------------------

  datatype NodeAction =
    | Attach(records: seq<Record>)
    | Deliver(n: nat)
    | TakeLine
    | TakePayload
    | TakeCommand
    | SendAck
    | AckArrives
    | RunTask(db': Db)
    | Reap(dead: set<Bytes>)
    | Serve(args: Args, db': Db)
    | MasterDrops
    | Disconnect
    | Wait(later: nat)

  datatype Action =
    | Tick(later: nat)
    | Command(args: Args, db': Db)
    | MasterReap(dead: set<Bytes>)
    | On(id: nat, action: NodeAction)

  function Detached(n: Node): Node
  {
    n.(phase := Down, buffer := [], inFlight := [], attached := false, acks := [], acked := 0)
  }

  /** The position the store stands for once a posted task has run. */
  function After(t: Task): Option<nat>
  {
    match t
    case LoadAll(_, from) => Some(from.base)
    case ApplyOne(_, index) => Some(index + 1)
  }

  /** The view a task leaves: a resync replaces everything, a streamed command is
      dispatched like any other. */
  ghost function TaskView(t: Task, v: View, now: nat): View
  {
    match t
    case LoadAll(records, _) => Loaded(map[], records, now)
    case ApplyOne(args, _) => Run(v, args, now).view
  }

  /** Which steps a node can take.  `now` is the master's clock, at which it takes
      its snapshots; everything else happens at the node's own. */
  ghost predicate NodeEnabled(now: nat, m: Master, n: Node, a: NodeAction)
  {
    match a
    case Attach(records) =>
      n.phase.Down? && Lists(records, ViewOf(m.db, now)) && Rdb.Saveable(records)
    case Deliver(k) => !n.phase.Down? && k <= |n.inFlight|
    case TakeLine => (n.phase.AwaitResync? || n.phase.AwaitSize?) && FindCrlf(n.buffer, 0).Some?
    case TakePayload => n.phase.AwaitPayload? && |n.buffer| >= n.phase.size
    case TakeCommand => n.phase.Streaming? && Parse(n.buffer).Ok?
    case SendAck => n.phase.Streaming?
    case AckArrives => n.acks != []
    case RunTask(db') =>
      n.queue != [] && Consistent(db')
      && ViewOf(db', n.clock) == TaskView(n.queue[0], ViewOf(n.db, n.clock), n.clock)
    case Reap(dead) => forall k :: k in dead ==> Expired(n.db, k, n.clock)
    case Serve(args, db') =>
      Consistent(db') && ViewOf(db', n.clock) == RunForClient(ViewOf(n.db, n.clock), args, n.clock, true).view
    case MasterDrops => n.attached
    case Disconnect => !n.phase.Down?
    case Wait(later) => n.clock <= later
  }

  /** The reading of one line: the FULLRESYNC announcement, then the payload size. */
  function AfterLine(n: Node): Node
    requires FindCrlf(n.buffer, 0).Some?
  {
    var eol := FindCrlf(n.buffer, 0).value;
    var line, rest := n.buffer[..eol], n.buffer[eol + 2..];
    if n.phase.AwaitResync? then
      if HasPrefix(line, Ascii("+FULLRESYNC"))
      then n.(phase := AwaitSize(OffsetIn(line)), buffer := rest)
      else Detached(n)
    else if n.phase.AwaitSize? && line != [] && line[0] == DOLLAR
    then n.(phase := AwaitPayload(n.phase.at, LeadingNumber(line[1..])), buffer := rest)
    else Detached(n)
  }

  function AfterPayload(n: Node): Node
    requires n.phase.AwaitPayload? && |n.buffer| >= n.phase.size
  {
    var size := n.phase.size;
    match Rdb.Parse(n.buffer[..size])
    case Rejected(_, _) => Detached(n)
    case Wrapped => Detached(n)  // beyond the model, and in no run (ReceivePathExact)
    case Parsed(records) =>
      n.(phase := Streaming, buffer := n.buffer[size..], offset := n.phase.at,
         queue := n.queue + [LoadAll(records, n.snap)], taken := n.snap.base)
  }

  function AfterCommand(n: Node): Node
    requires Parse(n.buffer).Ok?
  {
    ConsumedWithinInput(n.buffer);
    var Ok(args, consumed) := Parse(n.buffer);
    var moved := n.(buffer := n.buffer[consumed..], offset := n.offset + consumed);
    if args == [] then moved
    else if Swallowed(args) then
      if VerbOf(Upper(args[0])).Replconf? then moved.(acks := n.acks + [moved.offset]) else moved
    else moved.(queue := n.queue + [ApplyOne(args, n.taken)], taken := n.taken + 1)
  }

  /** Whether running a posted task at `now` loses a write to an expired deadline. */
  ghost predicate TaskLoses(m: Master, t: Task, now: nat)
  {
    && t.ApplyOne? && t.index < |m.log| && WriteOf(t.args).Some?
    && Lossy(Before(m.start, m.log, t.index), WriteOf(t.args).value, now)
  }

  function AfterTask(n: Node, db': Db): Node
    requires n.queue != []
  {
    n.(db := db', queue := n.queue[1..], applied := After(n.queue[0]))
  }

  ghost function AfterAttach(m: Master, n: Node, records: seq<Record>, now: nat): Node
    requires Rdb.Saveable(records)
  {
    var payload := Rdb.Serialize(records);
    n.(phase := AwaitResync, buffer := [], attached := true, acks := [], acked := 0,
       inFlight := ResyncBytes(m.replid, m.offset, payload),
       snap := Snap(|m.log|, now), records := records, taken := |m.log|, sent := |m.log|)
  }

  ghost function NodeStep(now: nat, m: Master, n: Node, a: NodeAction): Node
    requires NodeEnabled(now, m, n, a)
  {
    match a
    case Attach(records) => AfterAttach(m, n, records, now)
    case Deliver(k) => n.(buffer := n.buffer + n.inFlight[..k], inFlight := n.inFlight[k..])
    case TakeLine => AfterLine(n)
    case TakePayload => AfterPayload(n)
    case TakeCommand => AfterCommand(n)
    case SendAck => n.(acks := n.acks + [n.offset])
    case AckArrives => n.(acks := n.acks[1..], acked := n.acks[0])
    case RunTask(db') => AfterTask(n, db')
    case Reap(dead) => n.(db := Without(n.db, dead))
    case Serve(_, db') => n.(db := db')
    case MasterDrops => n.(attached := false)
    case Disconnect => Detached(n)
    case Wait(later) => n.(clock := later)
  }

  /** Replication::propagate: the offset always moves, attached links get the bytes. */
  function SentTo(n: Node, bytes: Bytes): Node
  {
    if n.attached then n.(inFlight := n.inFlight + bytes, sent := n.sent + 1) else n
  }

  ghost function Propagate(s: System, args: Args, db': Db): System
  {
    var m := s.master;
    var bytes := Encode(args);
    s.(master := m.(db := db', offset := m.offset + |bytes|, log := m.log + [Event(args, s.now)]),
       nodes := map id | id in s.nodes :: SentTo(s.nodes[id], bytes))
  }

  /** The condition on clocks: no replica's is behind the master's.  Without it a
      replica shows keys the master has let die (BehindShowsMore). */
  predicate NoneBehind(nodes: map<nat, Node>, now: nat) { forall id :: id in nodes ==> now <= nodes[id].clock }

  ghost predicate Enabled(s: System, a: Action)
  {
    match a
    case Tick(later) => s.now <= later && NoneBehind(s.nodes, later)
    case Command(args, db') =>
      WithinLimits(args) && InRange(args, s.now) && Consistent(db')
      && ViewOf(db', s.now) == Run(ViewOf(s.master.db, s.now), args, s.now).view
    case MasterReap(dead) => forall k :: k in dead ==> Expired(s.master.db, k, s.now)
    case On(id, action) =>
      id in s.nodes && NodeEnabled(s.now, s.master, s.nodes[id], action)
  }

  ghost function Step(s: System, a: Action): System
    requires Enabled(s, a)
  {
    match a
    case Tick(later) => s.(now := later)
    case Command(args, db') =>
      var out := Run(ViewOf(s.master.db, s.now), args, s.now);
      if out.dirty then Propagate(s, out.propagate, db') else s.(master := s.master.(db := db'))
    case MasterReap(dead) => s.(master := s.master.(db := Without(s.master.db, dead)))
    case On(id, action) =>
      s.(nodes := s.nodes[id := NodeStep(s.now, s.master, s.nodes[id], action)])
  }

  // ------------------------------------------------------------------
  // What every state keeps
  // ------------------------------------------------------------------

  ghost predicate MasterInv(now: nat, m: Master)
  {
    && Consistent(m.db) && OneLine(m.replid)
    && CanonicalLog(m.log) && LastAt(m.log) <= now
    && m.offset == OffsetAt(m.log, |m.log|)
    && ViewAt(m, |m.log|, now) == ViewOf(m.db, now)
    && Storable(ViewOf(m.db, now))
  }

  /** `records` is what the master held when the snapshot was taken. */
  ghost predicate SnapshotOf(now: nat, m: Master, snap: Snap, records: seq<Record>)
  {
    && snap.base <= |m.log| && snap.at <= now
    && Lists(records, ViewAt(m, snap.base, snap.at))
    && Storable(ViewAt(m, snap.base, snap.at))
  }

  /** The bytes the replica has yet to parse, phase by phase. */
  ghost function Expected(m: Master, n: Node): Bytes
    requires Rdb.Saveable(n.records)
    requires n.snap.base <= n.taken <= n.sent <= |m.log|
  {
    var payload := Rdb.Serialize(n.records);
    var stream := StreamBytes(m.log, n.taken, n.sent);
    match n.phase
    case Down => []
    case AwaitResync =>
      ResyncText(m.replid, OffsetAt(m.log, n.snap.base)) + CRLF + (LengthLine(DOLLAR, |payload|) + payload + stream)
    case AwaitSize(_) => LengthLine(DOLLAR, |payload|) + payload + stream
    case AwaitPayload(_, _) => payload + stream
    case Streaming => stream
  }

  /** The connection: positions in order, and no byte lost or duplicated. */
  ghost predicate LinkInv(now: nat, m: Master, n: Node)
  {
    && n.snap.base <= n.taken <= n.sent <= |m.log|
    && (n.attached ==> n.sent == |m.log|)
    && Rdb.Saveable(n.records) && SnapshotOf(now, m, n.snap, n.records)
    && n.buffer + n.inFlight == Expected(m, n)
    && (!n.phase.Streaming? ==> n.taken == n.snap.base && n.acks == [] && n.acked == 0)
    && (n.phase.AwaitSize? ==> n.phase.at == OffsetAt(m.log, n.snap.base))
    && (n.phase.AwaitPayload? ==>
          n.phase.at == OffsetAt(m.log, n.snap.base) && n.phase.size == |Rdb.Serialize(n.records)|)
    && (n.phase.Streaming? ==> n.offset == OffsetAt(m.log, n.taken))
  }

  /** The position the store will stand for just before task `i` runs. */
  function PositionBefore(applied: Option<nat>, queue: seq<Task>, i: nat): Option<nat>
    requires i <= |queue|
  {
    if i == 0 then applied else After(queue[i - 1])
  }

  /** Each posted task continues where the one before it leaves off. */
  ghost predicate QueueInv(now: nat, m: Master, applied: Option<nat>, queue: seq<Task>)
  {
    forall i :: 0 <= i < |queue| ==>
      match queue[i]
      case LoadAll(records, from) => SnapshotOf(now, m, from, records)
      case ApplyOne(args, index) =>
        index < |m.log| && args == m.log[index].args
        && PositionBefore(applied, queue, i) == Some(index)
  }

  /** The store: it shows no more than the master did at the position applied. */
  ghost predicate StoreInv(now: nat, m: Master, n: Node)
  {
    && Consistent(n.db) && Storable(ViewOf(n.db, now))
    && (n.applied.Some? ==>
          && n.applied.value <= |m.log|
          && Within(ViewOf(n.db, now), ViewAt(m, n.applied.value, now)))
  }

  ghost predicate AckInv(m: Master, n: Node)
  {
    && n.acked <= n.offset <= m.offset
    && forall i :: 0 <= i < |n.acks| ==> n.acks[i] <= n.offset
  }

  ghost predicate NodeInv(now: nat, m: Master, n: Node)
  {
    && (if n.phase.Down? then Detached(n) == n else LinkInv(now, m, n))
    && StoreInv(now, m, n)
    && QueueInv(now, m, n.applied, n.queue)
    && (n.phase.Streaming? ==> PositionBefore(n.applied, n.queue, |n.queue|) == Some(n.taken))
    && AckInv(m, n)
  }

  ghost predicate Inv(s: System)
  {
    && MasterInv(s.now, s.master) && NoneBehind(s.nodes, s.now)
    && forall id :: id in s.nodes ==> NodeInv(s.nodes[id].clock, s.master, s.nodes[id])
  }

  /** A master with some data, nothing propagated yet, and servers that have not
      connected. */
  ghost predicate Initial(s: System)
  {
    var m := s.master;
    && Consistent(m.db) && OneLine(m.replid) && m.log == [] && m.offset == 0
    && m.start == ViewOf(m.db, s.now) && Storable(m.start) && NoneBehind(s.nodes, s.now)
    && forall id :: id in s.nodes ==>
         var n := s.nodes[id];
         && Detached(n) == n && n.queue == [] && n.applied.None? && n.offset == 0
         && Consistent(n.db) && Storable(ViewOf(n.db, n.clock))
  }

  // ------------------------------------------------------------------
  // The log only grows and the clock only advances
  // ------------------------------------------------------------------

  ghost predicate Extends(m: Master, m': Master)
  {
    && m'.start == m.start && m'.replid == m.replid && m.offset <= m'.offset
    && |m.log| <= |m'.log| && m'.log[..|m.log|] == m.log
  }

  lemma {:induction false} SamePrefix(m: Master, m': Master, p: nat)
    requires Extends(m, m') && p <= |m.log|
    ensures m'.log[..p] == m.log[..p]
    ensures p < |m.log| ==> m'.log[p] == m.log[p]
  {
    assert m'.log[..p] == m'.log[..|m.log|][..p];
    if p < |m.log| {
      assert m'.log[p] == m'.log[..|m.log|][p];
    }
  }

  lemma {:induction false} SameStream(m: Master, m': Master, i: nat, j: nat)
    requires Extends(m, m') && i <= j <= |m.log|
    ensures StreamBytes(m'.log, i, j) == StreamBytes(m.log, i, j)
  {
    SamePrefix(m, m', j);
    assert m'.log[i..j] == m'.log[..j][i..j] && m.log[i..j] == m.log[..j][i..j];
  }

  lemma {:induction false} SnapshotKept(now: nat, now': nat, m: Master, m': Master, snap: Snap, records: seq<Record>)
    requires Extends(m, m') && now <= now' && SnapshotOf(now, m, snap, records)
    ensures SnapshotOf(now', m', snap, records)
  {
    hide Written;
    hide Lists;
    hide Storable;
    SamePrefix(m, m', snap.base);
  }

  lemma {:induction false} QueueKept(now: nat, now': nat, m: Master, m': Master, applied: Option<nat>, queue: seq<Task>)
    requires Extends(m, m') && now <= now' && QueueInv(now, m, applied, queue)
    ensures QueueInv(now', m', applied, queue)
  {
    hide SnapshotOf;
    hide Extends;
    forall i | 0 <= i < |queue|
      ensures match queue[i]
              case LoadAll(records, from) => SnapshotOf(now', m', from, records)
              case ApplyOne(args, index) =>
                index < |m'.log| && args == m'.log[index].args
                && PositionBefore(applied, queue, i) == Some(index)
    {
      ExtendsLonger(m, m');
      match queue[i]
      case LoadAll(records, from) => SnapshotKept(now, now', m, m', from, records);
      case ApplyOne(args, index) => SamePrefix(m, m', index);
    }
  }

  lemma {:induction false} ExtendsLonger(m: Master, m': Master)
    requires Extends(m, m')
    ensures |m.log| <= |m'.log| && m.offset <= m'.offset
  {}

  lemma {:induction false} StoreKept(now: nat, now': nat, m: Master, m': Master, n: Node)
    requires Extends(m, m') && now <= now' && StoreInv(now, m, n)
    ensures StoreInv(now', m', n)
  {
    hide Written;
    ViewFades(n.db, now, now');
    if n.applied.Some? {
      var p := n.applied.value;
      SamePrefix(m, m', p);
      FadeTwice(Written(m.start, m.log[..p]), now, now');
      FadeWithin(ViewOf(n.db, now), ViewAt(m, p, now), now');
    }
  }

  /** A connection that got nothing new is as it was. */
  lemma {:induction false} LinkKept(now: nat, now': nat, m: Master, m': Master, n: Node)
    requires Extends(m, m') && now <= now' && LinkInv(now, m, n)
    requires n.attached ==> |m'.log| == |m.log|
    ensures LinkInv(now', m', n)
  {
    hide StreamBytes;
    hide SnapshotOf;
    hide Rdb.Serialize;
    hide Rdb.Saveable;
    SnapshotKept(now, now', m, m', n.snap, n.records);
    SameStream(m, m', n.taken, n.sent);
    SamePrefix(m, m', n.snap.base);
    SamePrefix(m, m', n.taken);
  }

  lemma {:induction false} NodeKept(now: nat, now': nat, m: Master, m': Master, n: Node)
    requires Extends(m, m') && now <= now' && NodeInv(now, m, n)
    requires n.attached ==> |m'.log| == |m.log|
    ensures NodeInv(now', m', n)
  {
    hide Extends;
    hide LinkInv;
    hide StoreInv;
    hide QueueInv;
    ExtendsLonger(m, m');
    if !n.phase.Down? {
      LinkKept(now, now', m, m', n);
    }
    StoreKept(now, now', m, m', n);
    QueueKept(now, now', m, m', n.applied, n.queue);
  }

  // ------------------------------------------------------------------
  // Steps of the master
  // ------------------------------------------------------------------

  lemma {:induction false} MasterKept(now: nat, later: nat, m: Master)
    requires MasterInv(now, m) && now <= later
    ensures MasterInv(later, m)
  {
    hide Canonical;
    hide Written;
    ViewFades(m.db, now, later);
    FadeTwice(Written(m.start, m.log), now, later);
    assert m.log[..|m.log|] == m.log;
  }

  lemma {:induction false} TickKeeps(s: System, later: nat)
    requires Inv(s) && s.now <= later && NoneBehind(s.nodes, later)
    ensures Inv(s.(now := later))
  {
    hide NodeInv;
    hide MasterInv;
    MasterKept(s.now, later, s.master);
  }

  lemma {:induction false} ExtendsItself(m: Master)
    ensures Extends(m, m)
  {
    assert m.log[..|m.log|] == m.log;
  }

  /** The master's own store changes in a way no view shows. */
  lemma {:induction false} InvisibleKeeps(s: System, db': Db)
    requires Inv(s) && Consistent(db') && ViewOf(db', s.now) == ViewOf(s.master.db, s.now)
    ensures Inv(s.(master := s.master.(db := db')))
  {
    hide NodeInv;
    hide ViewOf;
    hide Written;
    hide CanonicalLog;
    hide OffsetAt;
    hide Storable;
    hide Consistent;
    var m := s.master;
    var m' := m.(db := db');
    assert Extends(m, m');
    forall id | id in s.nodes ensures NodeInv(s.nodes[id].clock, m', s.nodes[id]) {
      NodeKept(s.nodes[id].clock, s.nodes[id].clock, m, m', s.nodes[id]);
    }
  }

  lemma {:induction false} LogGrows(now: nat, m: Master, args: Args, db': Db)
    requires MasterInv(now, m) && Canonical(args) && Consistent(db')
    requires ViewOf(db', now) == Apply(ViewOf(m.db, now), WriteOf(args).value, now)
    requires Storable(ViewOf(db', now))
    ensures var m' := m.(db := db', offset := m.offset + |Encode(args)|, log := m.log + [Event(args, now)]);
            MasterInv(now, m') && Extends(m, m')
  {
    hide Written;
    hide Apply;
    hide Canonical;
    hide CanonicalLog;
    hide ViewOf;
    hide Storable;
    hide Encode;
    var e := Event(args, now);
    var m' := m.(db := db', offset := m.offset + |Encode(args)|, log := m.log + [e]);
    assert m.log[..|m.log|] == m.log && m'.log[..|m'.log|] == m'.log;
    assert m'.log[..|m.log|] == m.log;
    LogOneMore(m.start, m.log, e, ViewOf(m.db, now));
    ViewIsCurrent(db', now);
    FadeCurrent(ViewOf(db', now), now);
    OffsetIsStream(m'.log, |m.log|, |m'.log|);
    StreamOne(m'.log, |m.log|);
  }

  /** An attached link is fed the new command; then it is up to date again. */
  lemma {:induction false} FeedKeeps(now: nat, m: Master, m': Master, n: Node, e: Event)
    requires NodeInv(now, m, n) && n.attached && !n.phase.Down?
    requires Extends(m, m') && m'.log == m.log + [e]
    ensures NodeInv(now, m', SentTo(n, Encode(e.args)))
  {
    hide Extends;
    hide StoreInv;
    hide QueueInv;
    hide LinkInv;
    var n' := SentTo(n, Encode(e.args));
    ExtendsLonger(m, m');
    FeedLink(now, m, m', n, e);
    StoreKept(now, now, m, m', n);
    StoreSame(now, m', n, n');
    QueueKept(now, now, m, m', n.applied, n.queue);
  }

  lemma {:induction false} StoreSame(now: nat, m: Master, n: Node, n': Node)
    requires StoreInv(now, m, n) && n'.db == n.db && n'.applied == n.applied
    ensures StoreInv(now, m, n')
  {}

  lemma {:induction false} FeedLink(now: nat, m: Master, m': Master, n: Node, e: Event)
    requires LinkInv(now, m, n) && n.attached && !n.phase.Down?
    requires Extends(m, m') && m'.log == m.log + [e]
    ensures LinkInv(now, m', SentTo(n, Encode(e.args)))
  {
    hide StreamBytes;
    hide SnapshotOf;
    hide Rdb.Serialize;
    hide Rdb.Saveable;
    hide Encode;
    hide ResyncText;
    hide LengthLine;
    var n' := SentTo(n, Encode(e.args));
    SnapshotKept(now, now, m, m', n.snap, n.records);
    SameStream(m, m', n.taken, n.sent);
    SamePrefix(m, m', n.snap.base);
    SamePrefix(m, m', n.taken);
    StreamSplit(m'.log, n.taken, n.sent, n'.sent);
    StreamOne(m'.log, n.sent);
    MoreExpected(m, m', n, Encode(e.args));
    assert n.buffer + (n.inFlight + Encode(e.args)) == (n.buffer + n.inFlight) + Encode(e.args);
  }

  lemma {:induction false} MoreExpected(m: Master, m': Master, n: Node, bytes: Bytes)
    requires Rdb.Saveable(n.records) && !n.phase.Down? && n.attached
    requires n.snap.base <= n.taken <= n.sent == |m.log| && |m'.log| == |m.log| + 1
    requires m'.replid == m.replid
    requires StreamBytes(m'.log, n.taken, n.sent + 1) == StreamBytes(m.log, n.taken, n.sent) + bytes
    requires OffsetAt(m'.log, n.snap.base) == OffsetAt(m.log, n.snap.base)
    ensures Expected(m', SentTo(n, bytes)) == Expected(m, n) + bytes
  {
    hide StreamBytes;
    hide OffsetAt;
    hide Rdb.Serialize;
    hide Rdb.Saveable;
    hide ResyncText;
    hide LengthLine;
  }

  lemma {:induction false} AttachedIsUp(now: nat, m: Master, n: Node)
    requires NodeInv(now, m, n) && n.attached
    ensures !n.phase.Down?
  {
    hide LinkInv;
    hide StoreInv;
    hide QueueInv;
    hide AckInv;
  }

  lemma {:induction false} PropagateKeeps(s: System, args: Args, db': Db)
    requires Inv(s) && Canonical(args) && Consistent(db')
    requires ViewOf(db', s.now) == Apply(ViewOf(s.master.db, s.now), WriteOf(args).value, s.now)
    requires Storable(ViewOf(db', s.now))
    ensures Inv(Propagate(s, args, db'))
  {
    hide MasterInv;
    hide Extends;
    hide Canonical;
    hide Apply;
    hide ViewOf;
    hide Storable;
    hide Encode;
    hide NodeInv;
    hide WriteOf;
    LogGrows(s.now, s.master, args, db');
    var s' := Propagate(s, args, db');
    forall id | id in s'.nodes ensures NodeInv(s'.nodes[id].clock, s'.master, s'.nodes[id]) {
      var n := s.nodes[id];
      if n.attached {
        AttachedIsUp(n.clock, s.master, n);
        FeedKeeps(n.clock, s.master, s'.master, n, Event(args, s.now));
      } else {
        NodeKept(n.clock, n.clock, s.master, s'.master, n);
      }
    }
  }

  lemma {:induction false} CommandKeeps(s: System, args: Args, db': Db)
    requires Inv(s) && Enabled(s, Command(args, db'))
    ensures Inv(Step(s, Command(args, db')))
  {
    hide NodeInv;
    hide Run;
    hide InRange;
    hide Canonical;
    hide Apply;
    hide Written;
    hide Propagate;
    var v := ViewOf(s.master.db, s.now);
    ViewIsCurrent(s.master.db, s.now);
    CommandCompiles(v, args, s.now);
    RunKeepsStorable(v, args, s.now);
    var out := Run(v, args, s.now);
    if out.dirty {
      PropagateKeeps(s, out.propagate, db');
    } else {
      InvisibleKeeps(s, db');
    }
  }

  // ------------------------------------------------------------------
  // Steps of a replica
  // ------------------------------------------------------------------

  /** What a step does to the connection only leaves store and queue alone. */
  lemma {:induction false} OnlyTheLink(now: nat, m: Master, n: Node, n': Node)
    requires NodeInv(now, m, n) && !n'.phase.Down? && LinkInv(now, m, n')
    requires n'.db == n.db && n'.applied == n.applied && n'.queue == n.queue
    requires n'.phase.Streaming? ==> n.phase.Streaming? && n'.taken == n.taken
    requires AckInv(m, n')
    ensures NodeInv(now, m, n')
  {
    hide LinkInv;
    hide QueueInv;
    StoreSame(now, m, n, n');
  }

  lemma {:induction false} DetachKeeps(now: nat, m: Master, n: Node)
    requires NodeInv(now, m, n)
    ensures NodeInv(now, m, Detached(n))
  {
    hide LinkInv;
    hide QueueInv;
    StoreSame(now, m, n, Detached(n));
  }

  lemma {:induction false} AttachKeeps(now: nat, m: Master, n: Node, records: seq<Record>)
    requires MasterInv(now, m) && now <= n.clock && NodeInv(n.clock, m, n)
    requires n.phase.Down? && Lists(records, ViewOf(m.db, now)) && Rdb.Saveable(records)
    ensures NodeInv(n.clock, m, AfterAttach(m, n, records, now))
  {
    hide QueueInv;
    hide StoreInv;
    hide Lists;
    hide Storable;
    hide Written;
    hide ViewOf;
    hide ResyncText;
    hide LengthLine;
    hide Rdb.Serialize;
    hide Rdb.Saveable;
    var n' := AfterAttach(m, n, records, now);
    StreamNone(m.log, |m.log|);
    var payload := Rdb.Serialize(records);
    var line := LengthLine(DOLLAR, |payload|);
    assert line + payload + [] == line + payload;
    assert n'.buffer + n'.inFlight == n'.inFlight;
    StoreSame(n.clock, m, n, n');
  }

  lemma {:induction false} DeliverKeeps(now: nat, m: Master, n: Node, k: nat)
    requires NodeInv(now, m, n) && !n.phase.Down? && k <= |n.inFlight|
    ensures NodeInv(now, m, n.(buffer := n.buffer + n.inFlight[..k], inFlight := n.inFlight[k..]))
  {
    hide LinkInv;
    hide QueueInv;
    hide StoreInv;
    var n' := n.(buffer := n.buffer + n.inFlight[..k], inFlight := n.inFlight[k..]);
    DeliverLink(now, m, n, k);
    OnlyTheLink(now, m, n, n');
  }

  lemma {:induction false} DeliverLink(now: nat, m: Master, n: Node, k: nat)
    requires LinkInv(now, m, n) && k <= |n.inFlight|
    ensures LinkInv(now, m, n.(buffer := n.buffer + n.inFlight[..k], inFlight := n.inFlight[k..]))
  {
    hide StreamBytes;
    hide SnapshotOf;
    hide OffsetAt;
    hide ResyncText;
    hide LengthLine;
    hide Rdb.Serialize;
    hide Rdb.Saveable;
    assert n.inFlight == n.inFlight[..k] + n.inFlight[k..];
    assert n.buffer + n.inFlight[..k] + n.inFlight[k..] == n.buffer + n.inFlight;
  }

  /** A line found in what has arrived is the first line of what is to come. */
  lemma {:induction false} FirstLine(buffer: Bytes, inFlight: Bytes, text: Bytes, rest: Bytes)
    requires OneLine(text) && buffer + inFlight == text + CRLF + rest
    requires FindCrlf(buffer, 0).Some?
    ensures var eol := FindCrlf(buffer, 0).value;
            buffer[..eol] == text && buffer[eol + 2..] + inFlight == rest
  {
    hide FindCrlf;
    var all := buffer + inFlight;
    var eol := FindCrlf(buffer, 0).value;
    assert all[..|buffer|] == buffer == buffer[..|buffer|];
    FindCrlfAgrees(buffer, all, |buffer|, 0);
    LineEnds(text, rest);
    assert buffer[..eol] == all[..eol] == text;
    assert buffer[eol + 2..] + inFlight == all[eol + 2..] == rest;
  }

  /** The announcement is read for what it is, whatever chunk it came in. */
  lemma {:induction false} ResyncLineTaken(now: nat, m: Master, n: Node)
    requires OneLine(m.replid) && LinkInv(now, m, n) && n.phase.AwaitResync?
    requires FindCrlf(n.buffer, 0).Some?
    ensures var n' := AfterLine(n);
            && n' == n.(phase := AwaitSize(OffsetAt(m.log, n.snap.base)), buffer := n'.buffer)
            && n'.buffer + n'.inFlight == Expected(m, n')
  {
    hide StreamBytes;
    hide SnapshotOf;
    hide FindCrlf;
    hide ResyncText;
    hide LengthLine;
    hide OffsetIn;
    hide OffsetAt;
    hide HasPrefix;
    hide Rdb.Serialize;
    hide Rdb.Saveable;
    var at := OffsetAt(m.log, n.snap.base);
    var payload := Rdb.Serialize(n.records);
    var rest := LengthLine(DOLLAR, |payload|) + payload + StreamBytes(m.log, n.taken, n.sent);
    ResyncTextOneLine(m.replid, at);
    FirstLine(n.buffer, n.inFlight, ResyncText(m.replid, at), rest);
    OffsetReads(m.replid, at);
  }

  lemma {:induction false} SizeLineTaken(now: nat, m: Master, n: Node)
    requires LinkInv(now, m, n) && n.phase.AwaitSize? && FindCrlf(n.buffer, 0).Some?
    ensures var n' := AfterLine(n);
            && n' == n.(phase := AwaitPayload(n.phase.at, |Rdb.Serialize(n.records)|), buffer := n'.buffer)
            && n'.buffer + n'.inFlight == Expected(m, n')
  {
    hide StreamBytes;
    hide SnapshotOf;
    hide FindCrlf;
    hide LeadingNumber;
    hide OffsetAt;
    hide Rdb.Serialize;
    hide Rdb.Saveable;
    hide Digits;
    var payload := Rdb.Serialize(n.records);
    var size := [DOLLAR] + Digits(|payload|);
    var rest := payload + StreamBytes(m.log, n.taken, n.sent);
    HeaderOneLine(|payload|);
    assert LengthLine(DOLLAR, |payload|) + payload + StreamBytes(m.log, n.taken, n.sent) == size + CRLF + rest;
    FirstLine(n.buffer, n.inFlight, size, rest);
    assert size[1..] == Digits(|payload|);
    NumberReads(|payload|);
  }

  lemma {:induction false} TakeLineKeeps(now: nat, m: Master, n: Node)
    requires MasterInv(now, m) && NodeInv(now, m, n)
    requires (n.phase.AwaitResync? || n.phase.AwaitSize?) && FindCrlf(n.buffer, 0).Some?
    ensures NodeInv(now, m, AfterLine(n)) && !AfterLine(n).phase.Down?
  {
    hide Expected;
    hide OffsetAt;
    hide SnapshotOf;
    hide AfterLine;
    hide FindCrlf;
    hide Rdb.Serialize;
    hide Rdb.Saveable;
    hide QueueInv;
    hide StoreInv;
    hide CanonicalLog;
    if n.phase.AwaitResync? {
      ResyncLineTaken(now, m, n);
    } else {
      SizeLineTaken(now, m, n);
    }
    OnlyTheLink(now, m, n, AfterLine(n));
  }

  /** The payload read back is the snapshot, and the stream starts right behind. */
  lemma {:induction false} PayloadTaken(now: nat, m: Master, n: Node)
    requires LinkInv(now, m, n) && n.phase.AwaitPayload? && |n.buffer| >= n.phase.size
    ensures var n' := AfterPayload(n);
            && n' == n.(phase := Streaming, buffer := n'.buffer, offset := OffsetAt(m.log, n.taken),
                        queue := n.queue + [LoadAll(n.records, n.snap)])
            && n'.buffer + n'.inFlight == Expected(m, n')
  {
    hide StreamBytes;
    hide SnapshotOf;
    hide OffsetAt;
    hide Rdb.Serialize;
    hide Rdb.Saveable;
    hide Rdb.Parse;
    var payload := Rdb.Serialize(n.records);
    var all := n.buffer + n.inFlight;
    var size := |payload|;
    assert n.buffer[..size] == all[..size] == payload;
    assert n.buffer[size..] + n.inFlight == all[size..] == StreamBytes(m.log, n.taken, n.sent);
    Rdb.RoundTrip(n.records);
  }

  lemma {:induction false} PayloadKeeps(now: nat, m: Master, n: Node)
    requires MasterInv(now, m) && NodeInv(now, m, n)
    requires n.phase.AwaitPayload? && |n.buffer| >= n.phase.size
    ensures NodeInv(now, m, AfterPayload(n)) && AfterPayload(n).phase.Streaming?
  {
    hide Expected;
    hide StreamBytes;
    hide SnapshotOf;
    hide OffsetAt;
    hide AfterPayload;
    hide Rdb.Serialize;
    hide Rdb.Saveable;
    hide StoreInv;
    hide QueueInv;
    hide CanonicalLog;
    PayloadTaken(now, m, n);
    StoreSame(now, m, n, AfterPayload(n));
    OffsetIsStream(m.log, n.taken, |m.log|);
    PostKeeps(now, m, n, LoadAll(n.records, n.snap));
  }

  /** Posting a task that continues where the queue leaves off. */
  lemma {:induction false} PostKeeps(now: nat, m: Master, n: Node, t: Task)
    requires QueueInv(now, m, n.applied, n.queue)
    requires match t
             case LoadAll(records, from) => SnapshotOf(now, m, from, records)
             case ApplyOne(args, index) =>
               index < |m.log| && args == m.log[index].args
               && PositionBefore(n.applied, n.queue, |n.queue|) == Some(index)
    ensures QueueInv(now, m, n.applied, n.queue + [t])
    ensures PositionBefore(n.applied, n.queue + [t], |n.queue| + 1) == After(t)
  {
    hide SnapshotOf;
    var more := n.queue + [t];
    assert forall i :: 0 <= i <= |n.queue| ==>
      PositionBefore(n.applied, more, i) == PositionBefore(n.applied, n.queue, i);
    forall i | 0 <= i < |more|
      ensures match more[i]
              case LoadAll(records, from) => SnapshotOf(now, m, from, records)
              case ApplyOne(args, index) =>
                index < |m.log| && args == m.log[index].args
                && PositionBefore(n.applied, more, i) == Some(index)
    {
      if i < |n.queue| {
        assert more[i] == n.queue[i];
      }
    }
  }

  /** What stands at the front of the stream is the next write, whole. */
  lemma {:induction false} NextCommand(m: Master, buffer: Bytes, inFlight: Bytes, i: nat, j: nat)
    requires CanonicalLog(m.log) && i <= j <= |m.log|
    requires buffer + inFlight == StreamBytes(m.log, i, j) && Parse(buffer).Ok?
    ensures i < j && |Encode(m.log[i].args)| <= |buffer|
    ensures Parse(buffer) == Ok(m.log[i].args, |Encode(m.log[i].args)|)
    ensures buffer[|Encode(m.log[i].args)|..] + inFlight == StreamBytes(m.log, i + 1, j)
    ensures Canonical(m.log[i].args)
  {
    hide Parse;
    hide Encode;
    hide WriteOf;
    hide IsWriteCommand;
    hide StreamBytes;
    var all := buffer + inFlight;
    ConsumedWithinInput(buffer);
    var c := Parse(buffer).consumed;
    assert all[..c] == buffer[..c];
    OkIsStable(buffer, all);
    if i == j {
      StreamNone(m.log, i);
      ConsumedWithinInput(all);
    } else {
      var args := m.log[i].args;
      assert Canonical(args);
      var rest := StreamBytes(m.log, i + 1, j);
      StreamSplit(m.log, i, i + 1, j);
      StreamOne(m.log, i);
      EncodeParses(args, rest);
      var len := |Encode(args)|;
      assert buffer[len..] + inFlight == all[len..] == rest;
    }
  }

  /** The stream loop never meets a protocol error. */
  lemma {:induction false} NoStreamError(m: Master, buffer: Bytes, inFlight: Bytes, i: nat, j: nat)
    requires CanonicalLog(m.log) && i <= j <= |m.log|
    requires buffer + inFlight == StreamBytes(m.log, i, j)
    ensures !Parse(buffer).Error?
  {
    hide Parse;
    hide Drain;
    hide Canonical;
    hide CommandsWithin;
    var log := m.log[i..j];
    CanonicalSlice(m.log, i, j);
    var bytes := EncodeAll(ArgsOf(log));
    assert bytes[..|buffer|] == buffer;
    Persistence.CutLog(log, |buffer|);
    ErrorDrains(buffer);
  }

  lemma {:induction false} CanonicalSlice(log: seq<Event>, i: nat, j: nat)
    requires CanonicalLog(log) && i <= j <= |log|
    ensures CanonicalLog(log[i..j])
  {
    hide Canonical;
  }

  lemma {:induction false} ErrorDrains(buffer: Bytes)
    ensures Parse(buffer).Error? ==> Drain(buffer).error.Some?
  {
    hide Parse;
  }

  /** The command taken off the stream is the next write of the log. */
  lemma {:induction false} CommandTaken(now: nat, m: Master, n: Node)
    requires CanonicalLog(m.log) && LinkInv(now, m, n) && n.phase.Streaming? && Parse(n.buffer).Ok?
    ensures n.taken < n.sent <= |m.log|
    ensures var n' := AfterCommand(n);
            && n' == n.(buffer := n'.buffer, offset := OffsetAt(m.log, n.taken + 1),
                        queue := n.queue + [ApplyOne(m.log[n.taken].args, n.taken)], taken := n.taken + 1)
            && n'.buffer + n'.inFlight == Expected(m, n')
  {
    hide StreamBytes;
    hide SnapshotOf;
    hide CanonicalLog;
    hide OffsetAt;
    hide Parse;
    hide Encode;
    hide Swallowed;
    hide Canonical;
    hide Rdb.Serialize;
    hide Rdb.Saveable;
    NextCommand(m, n.buffer, n.inFlight, n.taken, n.sent);
    var args := m.log[n.taken].args;
    CanonicalNotSwallowed(args);
    Persistence.CanonicalNonEmpty(args);
    OffsetIsStream(m.log, n.taken, n.taken + 1);
    StreamOne(m.log, n.taken);
  }

  lemma {:induction false} CommandKeepsLink(now: nat, m: Master, n: Node)
    requires CanonicalLog(m.log) && m.offset == OffsetAt(m.log, |m.log|)
    requires LinkInv(now, m, n) && AckInv(m, n) && n.phase.Streaming? && Parse(n.buffer).Ok?
    ensures LinkInv(now, m, AfterCommand(n)) && AckInv(m, AfterCommand(n))
  {
    hide Expected;
    hide StreamBytes;
    hide SnapshotOf;
    hide OffsetAt;
    hide AfterCommand;
    hide Parse;
    hide Rdb.Serialize;
    hide Rdb.Saveable;
    hide CanonicalLog;
    CommandTaken(now, m, n);
    OffsetIsStream(m.log, n.taken, n.taken + 1);
    OffsetIsStream(m.log, n.taken + 1, |m.log|);
  }

  lemma {:induction false} TakeCommandKeeps(now: nat, m: Master, n: Node)
    requires MasterInv(now, m) && NodeInv(now, m, n) && n.phase.Streaming? && Parse(n.buffer).Ok?
    ensures NodeInv(now, m, AfterCommand(n)) && AfterCommand(n).taken == n.taken + 1
  {
    hide Expected;
    hide OffsetAt;
    hide AfterCommand;
    hide Parse;
    hide LinkInv;
    hide AckInv;
    hide StoreInv;
    hide QueueInv;
    hide CanonicalLog;
    hide ViewAt;
    hide ViewOf;
    hide Storable;
    CommandTaken(now, m, n);
    CommandKeepsLink(now, m, n);
    StoreSame(now, m, n, AfterCommand(n));
    PostKeeps(now, m, n, ApplyOne(m.log[n.taken].args, n.taken));
  }

  lemma {:induction false} AckKeeps(now: nat, m: Master, n: Node, a: NodeAction)
    requires NodeInv(now, m, n) && NodeEnabled(now, m, n, a) && (a.SendAck? || a.AckArrives?)
    ensures NodeInv(now, m, NodeStep(now, m, n, a))
  {
    hide StreamBytes;
    hide SnapshotOf;
    hide Rdb.Serialize;
    hide Rdb.Saveable;
    hide QueueInv;
    hide StoreInv;
    var n' := NodeStep(now, m, n, a);
    assert Expected(m, n') == Expected(m, n);
    OnlyTheLink(now, m, n, n');
  }

  lemma {:induction false} DropKeeps(now: nat, m: Master, n: Node)
    requires NodeInv(now, m, n) && n.attached
    ensures NodeInv(now, m, n.(attached := false))
  {
    hide StreamBytes;
    hide SnapshotOf;
    hide Rdb.Serialize;
    hide Rdb.Saveable;
    hide QueueInv;
    hide StoreInv;
    var n' := n.(attached := false);
    assert Expected(m, n') == Expected(m, n);
    OnlyTheLink(now, m, n, n');
  }

  /** A change to the store alone. */
  lemma {:induction false} OnlyTheStore(now: nat, m: Master, n: Node, n': Node)
    requires NodeInv(now, m, n) && StoreInv(now, m, n')
    requires n' == n.(db := n'.db)
    ensures NodeInv(now, m, n')
  {
    hide StoreInv;
    hide QueueInv;
    if !n.phase.Down? {
      LinkSame(now, m, n, n');
    }
  }

  lemma {:induction false} LinkSame(now: nat, m: Master, n: Node, n': Node)
    requires LinkInv(now, m, n)
    requires n' == n.(clock := n'.clock, db := n'.db, queue := n'.queue, applied := n'.applied)
    ensures LinkInv(now, m, n')
  {
    hide StreamBytes;
    hide SnapshotOf;
    hide Rdb.Serialize;
    hide Rdb.Saveable;
    hide ResyncText;
    hide LengthLine;
    hide OffsetAt;
  }

  /** Local expiry and read-only clients leave the view as it is. */
  lemma {:induction false} LocalKeeps(now: nat, m: Master, n: Node, db': Db)
    requires NodeInv(now, m, n) && Consistent(db') && ViewOf(db', now) == ViewOf(n.db, now)
    ensures NodeInv(now, m, n.(db := db'))
  {
    OnlyTheStore(now, m, n, n.(db := db'));
  }

  lemma {:induction false} ServeKeeps(now: nat, m: Master, n: Node, args: Args, db': Db)
    requires NodeInv(now, m, n) && Consistent(db')
    requires ViewOf(db', now) == RunForClient(ViewOf(n.db, now), args, now, true).view
    ensures NodeInv(now, m, n.(db := db'))
  {
    hide RunForClient;
    hide NodeInv;
    hide Consistent;
    ReplicaIsReadOnly(ViewOf(n.db, now), args, now);
    LocalKeeps(now, m, n, db');
  }

  /** The node's clock advances. */
  lemma {:induction false} WaitKeeps(m: Master, n: Node, later: nat)
    requires NodeInv(n.clock, m, n) && n.clock <= later
    ensures NodeInv(later, m, n.(clock := later))
  {
    hide LinkInv;
    hide StoreInv;
    hide QueueInv;
    hide Extends;
    var n' := n.(clock := later);
    ExtendsItself(m);
    NodeKept(n.clock, later, m, m, n);
    StoreSame(later, m, n, n');
    if !n.phase.Down? {
      LinkSame(later, m, n, n');
    }
  }

  // ------------------------------------------------------------------
  // Running the posted tasks
  // ------------------------------------------------------------------

  lemma {:induction false} LoadAllShows(now: nat, m: Master, t: Task, v: View)
    requires t.LoadAll? && SnapshotOf(now, m, t.from, t.records)
    ensures TaskView(t, v, now) == ViewAt(m, t.from.base, now)
    ensures Storable(TaskView(t, v, now))
  {
    hide Written;
    hide Lists;
    LoadingRestores(t.records, ViewAt(m, t.from.base, t.from.at), now);
    FadeTwice(Written(m.start, m.log[..t.from.base]), t.from.at, now);
  }

  /** A streamed command run late: within the master's view after that write,
      and equal to it unless the write is lost. */
  lemma {:induction false} ApplyOneShows(now: nat, m: Master, i: nat, v: View)
    requires MasterInv(now, m) && i < |m.log|
    requires Within(v, ViewAt(m, i, now)) && Current(v, now) && Storable(v)
    ensures var w := Run(v, m.log[i].args, now).view;
            && Within(w, ViewAt(m, i + 1, now)) && Storable(w)
            && (v == ViewAt(m, i, now) ==>
                  (w == ViewAt(m, i + 1, now) <==> !TaskLoses(m, ApplyOne(m.log[i].args, i), now)))
  {
    hide Run;
    hide Written;
    hide Apply;
    hide WriteOf;
    hide Canonical;
    hide Lossy;
    hide Storable;
    var e := m.log[i];
    assert Canonical(e.args);
    CanonicalWrites(e.args);
    var w := WriteOf(e.args).value;
    var a := Before(m.start, m.log, i);
    CanonicalRuns(v, e.args, now);
    ApplyKeepsStorable(v, e.args, now);
    assert e.at <= LastAt(m.log);
    FadeTwice(Written(m.start, m.log[..i]), e.at, now);
    FadeCurrent(Written(m.start, m.log[..i]), e.at);
    LateApply(a, v, w, e.at, now);
    LateApplyExactly(a, w, e.at, now);
    WrittenNext(m, i);
  }

  lemma {:induction false} WrittenNext(m: Master, i: nat)
    requires i < |m.log| && WriteOf(m.log[i].args).Some?
    ensures Written(m.start, m.log[..i + 1])
         == Apply(Before(m.start, m.log, i), WriteOf(m.log[i].args).value, m.log[i].at)
  {
    hide WriteOf;
    hide Apply;
    assert m.log[..i + 1][..i] == m.log[..i];
  }

  lemma {:induction false} TaskKeepsStore(now: nat, m: Master, n: Node, db': Db)
    requires MasterInv(now, m) && StoreInv(now, m, n) && QueueInv(now, m, n.applied, n.queue)
    requires n.queue != [] && Consistent(db')
    requires ViewOf(db', now) == TaskView(n.queue[0], ViewOf(n.db, now), now)
    ensures StoreInv(now, m, AfterTask(n, db'))
  {
    hide MasterInv;
    hide Run;
    hide Written;
    hide SnapshotOf;
    hide TaskLoses;
    hide ViewAt;
    var task := n.queue[0];
    var v := ViewOf(n.db, now);
    ViewIsCurrent(n.db, now);
    assert PositionBefore(n.applied, n.queue, 0) == n.applied;
    match task
    case LoadAll(_, _) => LoadAllShows(now, m, task, v); SnapshotInLog(now, m, task);
    case ApplyOne(_, index) => ApplyOneShows(now, m, index, v);
  }

  lemma {:induction false} SnapshotInLog(now: nat, m: Master, t: Task)
    requires t.LoadAll? && SnapshotOf(now, m, t.from, t.records)
    ensures t.from.base <= |m.log|
  {}

  lemma {:induction false} PopKeeps(now: nat, m: Master, applied: Option<nat>, queue: seq<Task>)
    requires QueueInv(now, m, applied, queue) && queue != []
    ensures QueueInv(now, m, After(queue[0]), queue[1..])
    ensures PositionBefore(After(queue[0]), queue[1..], |queue| - 1) == PositionBefore(applied, queue, |queue|)
  {
    hide SnapshotOf;
    var rest := queue[1..];
    forall i | 0 <= i < |rest|
      ensures match rest[i]
              case LoadAll(records, from) => SnapshotOf(now, m, from, records)
              case ApplyOne(args, index) =>
                index < |m.log| && args == m.log[index].args
                && PositionBefore(After(queue[0]), rest, i) == Some(index)
    {
      assert rest[i] == queue[i + 1];
      assert PositionBefore(After(queue[0]), rest, i) == PositionBefore(applied, queue, i + 1);
    }
  }

  lemma {:induction false} RunTaskKeeps(now: nat, m: Master, n: Node, db': Db)
    requires MasterInv(now, m) && NodeInv(now, m, n) && n.queue != [] && Consistent(db')
    requires ViewOf(db', now) == TaskView(n.queue[0], ViewOf(n.db, now), now)
    ensures NodeInv(now, m, AfterTask(n, db'))
  {
    hide MasterInv;
    hide StoreInv;
    hide QueueInv;
    hide LinkInv;
    hide TaskView;
    var n' := AfterTask(n, db');
    TaskKeepsStore(now, m, n, db');
    PopKeeps(now, m, n.applied, n.queue);
    if !n.phase.Down? {
      LinkSame(now, m, n, n');
    }
  }

  // ------------------------------------------------------------------
  // Every run
  // ------------------------------------------------------------------

  lemma {:induction false} NodeStepKeeps(now: nat, m: Master, n: Node, a: NodeAction)
    requires MasterInv(now, m) && now <= n.clock && NodeInv(n.clock, m, n) && NodeEnabled(now, m, n, a)
    ensures var n' := NodeStep(now, m, n, a);
            now <= n'.clock && NodeInv(n'.clock, m, n')
  {
    hide MasterInv;
    hide NodeInv;
    hide AfterLine;
    hide AfterPayload;
    hide AfterCommand;
    hide AfterTask;
    hide AfterAttach;
    hide Parse;
    hide FindCrlf;
    hide ViewOf;
    var c := n.clock;
    MasterKept(now, c, m);
    if !a.Wait? {
      SameClock(now, m, n, a);
    }
    match a
    case Attach(records) => AttachKeeps(now, m, n, records);
    case Deliver(k) => DeliverKeeps(c, m, n, k);
    case TakeLine => TakeLineKeeps(c, m, n);
    case TakePayload => PayloadKeeps(c, m, n);
    case TakeCommand => TakeCommandKeeps(c, m, n);
    case SendAck => AckKeeps(c, m, n, a);
    case AckArrives => AckKeeps(c, m, n, a);
    case RunTask(db') => RunTaskKeeps(c, m, n, db');
    case Reap(dead) =>
      NodeIsConsistent(c, m, n);
      ReapingIsInvisible(n.db, dead, c, c);
      LocalKeeps(c, m, n, Without(n.db, dead));
    case Serve(args, db') => ServeKeeps(c, m, n, args, db');
    case MasterDrops => DropKeeps(c, m, n);
    case Disconnect => DetachKeeps(c, m, n);
    case Wait(later) => WaitKeeps(m, n, later);
  }

  lemma {:induction false} SameClock(now: nat, m: Master, n: Node, a: NodeAction)
    requires NodeEnabled(now, m, n, a) && !a.Wait?
    ensures NodeStep(now, m, n, a).clock == n.clock
  {
    hide Parse;
    hide FindCrlf;
    hide Rdb.Parse;
    hide Swallowed;
    hide ResyncBytes;
    hide Lists;
    hide ViewOf;
  }

  lemma {:induction false} NodeIsConsistent(now: nat, m: Master, n: Node)
    requires NodeInv(now, m, n)
    ensures Consistent(n.db)
  {}

  lemma {:induction false} MasterIsConsistent(now: nat, m: Master)
    requires MasterInv(now, m)
    ensures Consistent(m.db)
  {}

  lemma {:induction false} StepKeeps(s: System, a: Action)
    requires Inv(s) && Enabled(s, a)
    ensures Inv(Step(s, a))
  {
    hide MasterInv;
    hide NodeInv;
    hide NodeEnabled;
    hide NodeStep;
    hide Run;
    hide InRange;
    match a
    case Tick(later) => TickKeeps(s, later);
    case Command(args, db') => CommandKeeps(s, args, db');
    case MasterReap(dead) =>
      MasterIsConsistent(s.now, s.master);
      ReapingIsInvisible(s.master.db, dead, s.now, s.now);
      InvisibleKeeps(s, Without(s.master.db, dead));
    case On(id, action) => NodeStepKeeps(s.now, s.master, s.nodes[id], action);
  }

  /** A run: from each state to the next by an enabled step. */
  ghost predicate IsRun(states: seq<System>, actions: seq<Action>)
  {
    && |states| == |actions| + 1 && Initial(states[0])
    && forall i :: 0 <= i < |actions| ==>
         Enabled(states[i], actions[i]) && states[i + 1] == Step(states[i], actions[i])
  }

  lemma {:induction false} InitialIsInv(s: System)
    requires Initial(s)
    ensures Inv(s)
  {
    assert ArgsOf([]) == [];
    assert EncodeEach([]) == [];
    ViewIsCurrent(s.master.db, s.now);
    FadeCurrent(s.master.start, s.now);
  }

  lemma {:induction false} RunKeeps(states: seq<System>, actions: seq<Action>, i: nat)
    requires IsRun(states, actions) && i < |states|
    ensures Inv(states[i])
    decreases i
  {
    hide Inv;
    hide Initial;
    hide Step;
    hide Enabled;
    if i == 0 {
      InitialIsInv(states[0]);
    } else {
      RunKeeps(states, actions, i - 1);
      StepKeeps(states[i - 1], actions[i - 1]);
    }
  }

  /** In every state of every run, a replica that has been resynced shows, now and
      at every later time, nothing but what the master showed at the stream
      position the replica has applied. */
  lemma {:induction false} ReplicaShowsTheMaster(
    states: seq<System>, actions: seq<Action>, i: nat, id: nat, t: nat)
    requires IsRun(states, actions) && i < |states| && id in states[i].nodes
    requires states[i].nodes[id].clock <= t && states[i].nodes[id].applied.Some?
    ensures var m := states[i].master;
            var n := states[i].nodes[id];
            && n.applied.value <= |m.log|
            && Within(ViewOf(n.db, t), ViewAt(m, n.applied.value, t))
  {
    hide IsRun;
    hide MasterInv;
    hide LinkInv;
    hide QueueInv;
    RunKeeps(states, actions, i);
    var s := states[i];
    var n := s.nodes[id];
    assert NodeInv(n.clock, s.master, n);
    ExtendsItself(s.master);
    StoreKept(n.clock, t, s.master, s.master, n);
  }

  /** Why no replica's clock may be behind, exactly: a posted write run at a clock behind
      the time the master made it leaves the replica within what the master shows at
      that position if and only if nothing the replica then shows is dead at that time. */
  lemma {:induction false} BehindExactly(m: Master, i: nat, clock: nat)
    requires CanonicalLog(m.log) && i < |m.log| && clock <= m.log[i].at
    requires var w := WriteOf(m.log[i].args);
             w.Some? && w.value.MoveTo? ==> w.value.key in Before(m.start, m.log, i)
    ensures var shown := TaskView(ApplyOne(m.log[i].args, i), ViewAt(m, i, clock), clock);
            Within(shown, ViewAt(m, i + 1, clock)) <==> Current(shown, m.log[i].at)
  {
    hide Run;
    hide Written;
    hide Apply;
    hide WriteOf;
    hide Canonical;
    hide Within;
    hide Current;
    var e := m.log[i];
    assert Canonical(e.args);
    CanonicalWrites(e.args);
    CanonicalRuns(ViewAt(m, i, clock), e.args, clock);
    WrittenNext(m, i);
    EarlyApplyExactly(Written(m.start, m.log[..i]), WriteOf(e.args).value, clock, e.at);
  }

  /** And it does happen: a key the master has let die by the time of its write is still
      shown by a replica that runs the write at an earlier time of its own. */
  lemma {:induction false} BehindShowsMore(
    m: Master, key: Bytes, entry: Entry, other: Bytes, value: Bytes, behind: nat, now: nat)
    requires m.start == map[key := entry] && Alive(entry, behind) && !Alive(entry, now) && other != key
    requires m.log == [Event(CanonicalSet(other, value, NO_EXPIRY), now)] && behind <= now
    ensures var shown := TaskView(ApplyOne(m.log[0].args, 0), ViewAt(m, 0, behind), behind);
            key in shown && key !in ViewAt(m, 1, behind)
  {
    hide Run;
    hide WriteOf;
    hide CanonicalSet;
    var args := m.log[0].args;
    CanonicalSetReads(other, value, NO_EXPIRY);
    CanonicalRuns(ViewAt(m, 0, behind), args, behind);
    WrittenNext(m, 0);
    assert m.log[..0] == [] && m.log[..1] == m.log;
  }

  /** In every run the receive path gets exactly what was sent: each line is
      accepted, each payload reads back as the snapshot the master took, and the
      stream behind it never shows a protocol error. */
  lemma {:induction false} ReceivePathExact(states: seq<System>, actions: seq<Action>, i: nat, id: nat)
    requires IsRun(states, actions) && i < |states| && id in states[i].nodes
    ensures var s := states[i];
            var n := s.nodes[id];
            && (NodeEnabled(s.now, s.master, n, TakeLine) ==> !AfterLine(n).phase.Down?)
            && (NodeEnabled(s.now, s.master, n, TakePayload) ==>
                  AfterPayload(n).phase.Streaming?
                  && AfterPayload(n).queue == n.queue + [LoadAll(n.records, n.snap)])
            && (n.phase.Streaming? ==> !Parse(n.buffer).Error?)
  {
    hide IsRun;
    hide AfterLine;
    hide AfterPayload;
    hide Parse;
    hide FindCrlf;
    hide StoreInv;
    hide QueueInv;
    hide SnapshotOf;
    hide CanonicalLog;
    hide OffsetAt;
    hide StreamBytes;
    hide Rdb.Serialize;
    hide Rdb.Saveable;
    RunKeeps(states, actions, i);
    var s := states[i];
    var n := s.nodes[id];
    assert NodeInv(n.clock, s.master, n);
    MasterKept(s.now, n.clock, s.master);
    if NodeEnabled(s.now, s.master, n, TakeLine) {
      TakeLineKeeps(n.clock, s.master, n);
    }
    if NodeEnabled(s.now, s.master, n, TakePayload) {
      PayloadTaken(n.clock, s.master, n);
    }
    if n.phase.Streaming? {
      NoStreamError(s.master, n.buffer, n.inFlight, n.taken, n.sent);
    }
  }

  /** Offsets are conserved: on an attached link that is streaming, the replica's
      offset, the bytes it has not parsed and the bytes in flight add up to the
      master's offset; and acknowledgements never run ahead. */
  lemma {:induction false} OffsetsConserved(states: seq<System>, actions: seq<Action>, i: nat, id: nat)
    requires IsRun(states, actions) && i < |states| && id in states[i].nodes
    ensures var m := states[i].master;
            var n := states[i].nodes[id];
            && n.acked <= n.offset <= m.offset
            && (n.phase.Streaming? && n.attached ==>
                  n.offset + |n.buffer| + |n.inFlight| == m.offset)
  {
    hide IsRun;
    hide StoreInv;
    hide QueueInv;
    hide CanonicalLog;
    hide SnapshotOf;
    RunKeeps(states, actions, i);
    var s := states[i];
    var n := s.nodes[id];
    assert NodeInv(n.clock, s.master, n);
    if n.phase.Streaming? && n.attached {
      assert |n.buffer + n.inFlight| == |StreamBytes(s.master.log, n.taken, n.sent)|;
      OffsetIsStream(s.master.log, n.taken, n.sent);
    }
  }

  /** Nothing on its way, nothing unparsed, nothing waiting to be run. */
  predicate Quiet(n: Node)
  {
    n.phase.Streaming? && n.buffer == [] && n.inFlight == [] && n.queue == []
  }

  lemma {:induction false} QuietIsAtTheEnd(now: nat, m: Master, n: Node)
    requires MasterInv(now, m) && NodeInv(now, m, n) && Quiet(n) && n.attached
    ensures n.offset == m.offset && n.applied == Some(|m.log|)
    ensures ViewAt(m, |m.log|, now) == ViewOf(m.db, now)
  {
    hide QueueInv;
    hide StoreInv;
    hide CanonicalLog;
    hide SnapshotOf;
    hide Written;
    hide StreamBytes;
    hide ViewOf;
    hide Storable;
    assert n.buffer + n.inFlight == [];
    OffsetIsStream(m.log, n.taken, n.sent);
    StreamEmpty(m.log, n.taken, n.sent);
  }

  /** Once everything sent has been parsed and every posted task has run, the
      replica stands at the end of the master's log, and shows, now and at every
      later time, nothing the master does not show then. */
  lemma {:induction false} ReplicaCatchesUp(states: seq<System>, actions: seq<Action>, i: nat, id: nat, t: nat)
    requires IsRun(states, actions) && i < |states| && id in states[i].nodes
    requires var n := states[i].nodes[id];
             Quiet(n) && n.attached && n.clock <= t
    ensures var m := states[i].master;
            var n := states[i].nodes[id];
            && n.offset == m.offset && n.applied == Some(|m.log|)
            && Within(ViewOf(n.db, t), ViewOf(m.db, t))
  {
    hide IsRun;
    hide MasterInv;
    hide NodeInv;
    hide Within;
    hide ViewAt;
    hide ViewOf;
    RunKeeps(states, actions, i);
    var s := states[i];
    var n := s.nodes[id];
    assert NodeInv(n.clock, s.master, n);
    MasterKept(s.now, t, s.master);
    ExtendsItself(s.master);
    NodeKept(n.clock, t, s.master, s.master, n);
    QuietIsAtTheEnd(t, s.master, n);
    ReplicaShowsTheMaster(states, actions, i, id, t);
  }
}
