/** When a replica shows exactly what the master showed at its position: through
    every run, as long as, and only as long as, no posted write is run after the
    deadline it was meant to move. */
module Agreement {
  import opened ByteStrings
  import opened Keyspace
  import opened Resp
  import opened Framing
  import opened Commands
  import opened Replay
  import opened Serving
  import opened Receiving
  import opened Replication
  import opened CatchingUp
  import CommandLaws
  import Rdb

  // ------------------------------------------------------------------
  // One step
  // ------------------------------------------------------------------

  ghost predicate NodeAgrees(m: Master, n: Node)
  {
    && n.applied.Some? && n.applied.value <= |m.log|
    && ViewOf(n.db, n.clock) == ViewAt(m, n.applied.value, n.clock)
  }

  /** The node has been resynced and shows exactly the master's view at the position
      it has applied. */
  ghost predicate Agrees(s: System, id: nat) { id in s.nodes && NodeAgrees(s.master, s.nodes[id]) }

  /** The step runs a posted write too late. */
  ghost predicate Loses(s: System, a: Action, id: nat)
  {
    && a.On? && a.id == id && a.action.RunTask? && id in s.nodes && s.nodes[id].queue != []
    && TaskLoses(s.master, s.nodes[id].queue[0], s.nodes[id].clock)
  }

  /** The step runs the load of a resync. */
  predicate Resyncs(s: System, a: Action, id: nat)
  {
    && a.On? && a.id == id && a.action.RunTask? && id in s.nodes && s.nodes[id].queue != []
    && s.nodes[id].queue[0].LoadAll?
  }

  predicate AffectsStore(a: NodeAction) { a.RunTask? || a.Reap? || a.Serve? || a.Wait? }

  lemma {:induction false} StoreUntouched(now: nat, m: Master, n: Node, a: NodeAction)
    requires NodeEnabled(now, m, n, a) && !AffectsStore(a)
    ensures var n' := NodeStep(now, m, n, a);
            n'.db == n.db && n'.applied == n.applied && n'.clock == n.clock
  {
    hide Parse;
    hide FindCrlf;
    hide Rdb.Parse;
    hide Swallowed;
    hide ResyncBytes;
    hide Lists;
    hide ViewOf;
  }

  lemma {:induction false} TaskAgreement(m: Master, n: Node, db': Db)
    requires MasterInv(n.clock, m) && NodeInv(n.clock, m, n) && NodeAgrees(m, n) && n.queue != []
    requires ViewOf(db', n.clock) == TaskView(n.queue[0], ViewOf(n.db, n.clock), n.clock)
    ensures NodeAgrees(m, AfterTask(n, db')) <==> !TaskLoses(m, n.queue[0], n.clock)
  {
    hide MasterInv;
    hide NodeInv;
    hide SnapshotOf;
    hide Run;
    hide ViewAt;
    hide ViewOf;
    hide Storable;
    var c, task := n.clock, n.queue[0];
    var v := ViewOf(n.db, c);
    ViewIsCurrent(n.db, c);
    FirstTask(m, n);
    match task
    case LoadAll(_, _) => LoadAllShows(c, m, task, v); SnapshotInLog(c, m, task);
    case ApplyOne(_, index) => ApplyOneShows(c, m, index, v);
  }

  lemma {:induction false} FirstTask(m: Master, n: Node)
    requires NodeInv(n.clock, m, n) && n.queue != []
    ensures Storable(ViewOf(n.db, n.clock))
    ensures match n.queue[0]
            case LoadAll(records, from) => SnapshotOf(n.clock, m, from, records)
            case ApplyOne(args, index) =>
              index < |m.log| && args == m.log[index].args && n.applied == Some(index)
  {
    hide LinkInv;
    hide SnapshotOf;
    hide Storable;
    hide ViewAt;
    hide ViewOf;
    assert PositionBefore(n.applied, n.queue, 0) == n.applied;
  }

  lemma {:induction false} WaitAgreement(m: Master, n: Node, later: nat)
    requires NodeAgrees(m, n) && n.clock <= later
    ensures NodeAgrees(m, n.(clock := later))
  {
    hide Written;
    hide ViewOf;
    ViewFades(n.db, n.clock, later);
    FadeTwice(Written(m.start, m.log[..n.applied.value]), n.clock, later);
  }

  lemma {:induction false} NodeAgreement(now: nat, m: Master, n: Node, a: NodeAction)
    requires MasterInv(now, m) && now <= n.clock && NodeInv(n.clock, m, n) && NodeAgrees(m, n)
    requires NodeEnabled(now, m, n, a)
    ensures NodeAgrees(m, NodeStep(now, m, n, a)) <==>
            !(a.RunTask? && TaskLoses(m, n.queue[0], n.clock))
  {
    hide MasterInv;
    hide NodeInv;
    hide NodeStep;
    hide NodeEnabled;
    hide ViewOf;
    hide ViewAt;
    hide TaskLoses;
    if !AffectsStore(a) {
      StoreUntouched(now, m, n, a);
    } else {
      match a
      case RunTask(_) => RunTaskAgreement(now, m, n, a);
      case Reap(_) => ReapAgreement(now, m, n, a);
      case Serve(_, _) => ServeAgreement(now, m, n, a);
      case Wait(_) => LaterAgreement(now, m, n, a);
    }
  }

  lemma {:induction false} RunTaskAgreement(now: nat, m: Master, n: Node, a: NodeAction)
    requires MasterInv(now, m) && now <= n.clock && NodeInv(n.clock, m, n) && NodeAgrees(m, n)
    requires NodeEnabled(now, m, n, a) && a.RunTask?
    ensures NodeAgrees(m, NodeStep(now, m, n, a)) <==> !TaskLoses(m, n.queue[0], n.clock)
  {
    hide MasterInv;
    hide NodeInv;
    hide ViewOf;
    hide ViewAt;
    hide TaskLoses;
    hide TaskView;
    hide Consistent;
    MasterKept(now, n.clock, m);
    TaskAgreement(m, n, a.db');
  }

  lemma {:induction false} ReapAgreement(now: nat, m: Master, n: Node, a: NodeAction)
    requires NodeInv(n.clock, m, n) && NodeAgrees(m, n) && NodeEnabled(now, m, n, a) && a.Reap?
    ensures NodeAgrees(m, NodeStep(now, m, n, a))
  {
    hide NodeInv;
    hide ViewOf;
    hide ViewAt;
    hide Without;
    NodeIsConsistent(n.clock, m, n);
    ReapingIsInvisible(n.db, a.dead, n.clock, n.clock);
  }

  lemma {:induction false} ServeAgreement(now: nat, m: Master, n: Node, a: NodeAction)
    requires NodeAgrees(m, n) && NodeEnabled(now, m, n, a) && a.Serve?
    ensures NodeAgrees(m, NodeStep(now, m, n, a))
  {
    hide ViewOf;
    hide ViewAt;
    hide RunForClient;
    hide Consistent;
    ReplicaIsReadOnly(ViewOf(n.db, n.clock), a.args, n.clock);
  }

  lemma {:induction false} LaterAgreement(now: nat, m: Master, n: Node, a: NodeAction)
    requires NodeAgrees(m, n) && NodeEnabled(now, m, n, a) && a.Wait?
    ensures NodeAgrees(m, NodeStep(now, m, n, a))
  {
    hide NodeAgrees;
    WaitAgreement(m, n, a.later);
  }

  lemma {:induction false} SamePosition(m: Master, m': Master, p: nat, t: nat)
    requires Extends(m, m') && p <= |m.log|
    ensures p <= |m'.log| && ViewAt(m', p, t) == ViewAt(m, p, t)
  {
    hide Written;
    SamePrefix(m, m', p);
  }

  lemma {:induction false} CommandAgreement(s: System, args: Args, db': Db, id: nat)
    requires Enabled(s, Command(args, db')) && Agrees(s, id)
    ensures Agrees(Step(s, Command(args, db')), id)
  {
    hide Run;
    hide InRange;
    hide ViewOf;
    hide ViewAt;
    hide Encode;
    var s' := Step(s, Command(args, db'));
    var m, m' := s.master, s'.master;
    assert m.log[..|m.log|] == m.log;
    assert Extends(m, m');
    SamePosition(m, m', s.nodes[id].applied.value, s.nodes[id].clock);
  }

  /** From agreement, every step keeps it but the late running of a posted write, and
      that one does break it. */
  lemma {:induction false} StepAgreement(s: System, a: Action, id: nat)
    requires Inv(s) && Enabled(s, a) && Agrees(s, id)
    ensures Agrees(Step(s, a), id) <==> !Loses(s, a, id)
  {
    hide MasterInv;
    hide NodeInv;
    hide ViewOf;
    hide ViewAt;
    hide TaskLoses;
    hide NodeStep;
    match a
    case Tick(_) =>
    case Command(args, db') => CommandAgreement(s, args, db', id);
    case MasterReap(dead) => SameLog(s.master, Without(s.master.db, dead), s.nodes[id]);
    case On(other, action) =>
      if other == id {
        NodeAgreement(s.now, s.master, s.nodes[id], action);
      }
  }

  lemma {:induction false} SameLog(m: Master, db': Db, n: Node)
    requires NodeAgrees(m, n)
    ensures NodeAgrees(m.(db := db'), n)
  {
    hide Written;
    hide ViewOf;
  }

  // ------------------------------------------------------------------
  // Whole runs
  // ------------------------------------------------------------------

  /** Running the load of a resync brings agreement. */
  lemma {:induction false} ResyncAgrees(s: System, a: Action, id: nat)
    requires Inv(s) && Enabled(s, a) && Resyncs(s, a, id)
    ensures Agrees(Step(s, a), id)
  {
    hide MasterInv;
    hide NodeInv;
    hide SnapshotOf;
    hide ViewOf;
    hide ViewAt;
    hide TaskView;
    var n := s.nodes[id];
    var task := n.queue[0];
    FirstTask(s.master, n);
    SnapshotInLog(n.clock, s.master, task);
    LoadAllShows(n.clock, s.master, task, ViewOf(n.db, n.clock));
  }

  lemma {:induction false} AgreesUntil(states: seq<System>, actions: seq<Action>, id: nat, from: nat, k: nat)
    requires IsRun(states, actions) && from <= k <= |actions| && Agrees(states[from], id)
    requires forall i :: from <= i < k ==> !Loses(states[i], actions[i], id)
    ensures Agrees(states[k], id)
    decreases k
  {
    hide Agrees;
    hide Loses;
    hide Enabled;
    hide Step;
    hide Initial;
    hide Inv;
    if k > from {
      AgreesUntil(states, actions, id, from, k - 1);
      RunKeeps(states, actions, k - 1);
      StepAgreement(states[k - 1], actions[k - 1], id);
    }
  }

  /** From any state on in which they agree, replica and master agree in every state
      if and only if no posted write is run too late. */
  lemma {:induction false} AgreesExactly(states: seq<System>, actions: seq<Action>, id: nat, from: nat, k: nat)
    requires IsRun(states, actions) && from <= k <= |actions| && Agrees(states[from], id)
    ensures (forall i :: from <= i <= k ==> Agrees(states[i], id)) <==>
            (forall i :: from <= i < k ==> !Loses(states[i], actions[i], id))
  {
    hide Agrees;
    hide Loses;
    hide Enabled;
    hide Step;
    hide Initial;
    hide Inv;
    if forall i :: from <= i <= k ==> Agrees(states[i], id) {
      forall i | from <= i < k ensures !Loses(states[i], actions[i], id) {
        assert Agrees(states[i], id) && Agrees(states[i + 1], id);
        RunKeeps(states, actions, i);
        StepAgreement(states[i], actions[i], id);
      }
    }
    if forall i :: from <= i < k ==> !Loses(states[i], actions[i], id) {
      forall i | from <= i <= k ensures Agrees(states[i], id) {
        AgreesUntil(states, actions, id, from, i);
      }
    }
  }

  /** In every run, since a replica ran the load of a resync at step `r`, it has shown
      exactly what the master showed at its position, in every state, if and only if
      none of the writes it ran since came too late. */
  lemma {:induction false} ReplicaAgreesExactly(
    states: seq<System>, actions: seq<Action>, id: nat, r: nat, k: nat)
    requires IsRun(states, actions) && r < k <= |actions| && Resyncs(states[r], actions[r], id)
    ensures (forall i :: r < i <= k ==> Agrees(states[i], id)) <==>
            (forall i :: r < i < k ==> !Loses(states[i], actions[i], id))
  {
    hide Agrees;
    hide Loses;
    hide Resyncs;
    hide Enabled;
    hide Step;
    hide Initial;
    hide Inv;
    RunKeeps(states, actions, r);
    ResyncAgrees(states[r], actions[r], id);
    AgreesExactly(states, actions, id, r + 1, k);
  }

  /** An agreeing replica with nothing left to do shows, now and ever after, exactly
      what the master shows. */
  lemma {:induction false} QuietAgreement(states: seq<System>, actions: seq<Action>, i: nat, id: nat, t: nat)
    requires IsRun(states, actions) && i < |states| && Agrees(states[i], id)
    requires var n := states[i].nodes[id];
             Quiet(n) && n.attached && n.clock <= t
    ensures ViewOf(states[i].nodes[id].db, t) == ViewOf(states[i].master.db, t)
  {
    hide IsRun;
    hide MasterInv;
    hide NodeInv;
    hide ViewAt;
    hide ViewOf;
    hide Quiet;
    RunKeeps(states, actions, i);
    var s := states[i];
    var n := s.nodes[id];
    MasterKept(s.now, t, s.master);
    ExtendsItself(s.master);
    NodeKept(n.clock, t, s.master, s.master, n);
    QuietIsAtTheEnd(t, s.master, n);
    WaitAgreement(s.master, n, t);
  }

  // ------------------------------------------------------------------
  // And it can be lost
  // ------------------------------------------------------------------

  function PersistOf(key: Bytes): Args { [Ascii("PERSIST"), key] }

  lemma {:induction false} PersistPropagates(v: View, key: Bytes, now: nat)
    requires key in v && v[key].deadline.Some?
    ensures var out := Run(v, PersistOf(key), now);
            && out.dirty && out.propagate == PersistOf(key)
            && out.view == v[key := Entry(v[key].value, None)]
    ensures InRange(PersistOf(key), now)
  {
    hide VerbOf;
    hide Upper;
    hide Ascii;
    CommandLaws.PersistName();
  }

  lemma {:induction false} PersistOfMissing(v: View, key: Bytes, now: nat)
    requires |key| <= MAX_BULK && key !in v
    ensures Run(v, PersistOf(key), now).view == v
  {
    hide Run;
    hide WriteOf;
    hide Canonical;
    PersistCanonical(key);
    CanonicalRuns(v, PersistOf(key), now);
  }

  /** The master takes the deadline of a key away; the write is on its way to an up
      to date replica. */
  lemma {:induction false} PersistOnMaster(s: System, id: nat, key: Bytes) returns (a: Action)
    requires Inv(s) && id in s.nodes && Up(s.nodes[id]) && |key| <= MAX_BULK
    requires var v := ViewOf(s.master.db, s.now);
             key in v && v[key].deadline.Some?
    ensures Enabled(s, a)
    ensures var s' := Step(s, a);
            var n := s.nodes[id];
            && s'.now == s.now && s'.nodes.Keys == s.nodes.Keys
            && s'.master.log == s.master.log + [Event(PersistOf(key), s.now)]
            && s'.nodes[id] == n.(inFlight := n.inFlight + Encode(PersistOf(key)), sent := n.sent + 1)
            && key in ViewOf(s'.master.db, s.now) && ViewOf(s'.master.db, s.now)[key].deadline.None?
  {
    hide Run;
    hide InRange;
    hide MasterInv;
    hide NodeInv;
    hide ViewOf;
    hide Ascii;
    hide Encode;
    hide Consistent;
    var v := ViewOf(s.master.db, s.now);
    ViewIsCurrent(s.master.db, s.now);
    PersistPropagates(v, key, s.now);
    var w := v[key := Entry(v[key].value, None)];
    DbShows(w, s.now);
    a := Command(PersistOf(key), DbOf(w));
  }

  lemma {:induction false} PersistTaken(n: Node, key: Bytes)
    requires |key| <= MAX_BULK && n.buffer == Encode(PersistOf(key))
    ensures Parse(n.buffer).Ok?
    ensures AfterCommand(n) == n.(buffer := [], offset := n.offset + |n.buffer|,
                                  queue := n.queue + [ApplyOne(PersistOf(key), n.taken)], taken := n.taken + 1)
  {
    hide Ascii;
    hide Encode;
    hide Parse;
    hide Swallowed;
    hide Canonical;
    var args := PersistOf(key);
    PersistCanonical(key);
    CanonicalFits(args);
    CanonicalNotSwallowed(args);
    EncodedIsSplittable(args);
    assert n.buffer[|n.buffer|..] == [];
  }

  /** The write arrives, but is run when the key is already gone. */
  lemma {:induction false} RunTooLate(s: System, id: nat, key: Bytes, late: nat)
    returns (states: seq<System>, actions: seq<Action>)
    requires |key| <= MAX_BULK && id in s.nodes
    requires var n := s.nodes[id];
             && Up(n) && n.phase.Streaming? && n.buffer == [] && n.queue == []
             && n.inFlight == Encode(PersistOf(key)) && n.clock <= late
             && Consistent(n.db) && key !in ViewOf(n.db, late)
    ensures IsPath(states, actions) && states[0] == s
    ensures var last := states[|actions|];
            && id in last.nodes && last == s.(nodes := s.nodes[id := last.nodes[id]])
            && var n := last.nodes[id];
            && Up(n) && Quiet(n) && n.clock == late
            && n.applied == Some(s.nodes[id].taken + 1) && key !in ViewOf(n.db, late)
  {
    hide Ascii;
    hide Encode;
    hide Parse;
    hide Run;
    hide ViewOf;
    hide Consistent;
    hide FindCrlf;
    hide AfterCommand;
    hide AfterLine;
    hide AfterPayload;
    hide AfterAttach;
    hide RunForClient;
    hide Lists;
    hide Rdb.Saveable;
    var n := s.nodes[id];
    var args := PersistOf(key);
    PersistOfMissing(ViewOf(n.db, late), key, late);
    var a1, a2, a3, a4 :=
      On(id, Wait(late)), On(id, Deliver(|n.inFlight|)), On(id, TakeCommand), On(id, RunTask(n.db));
    var s1 := Step(s, a1);
    assert s1.nodes[id] == n.(clock := late);
    assert n.inFlight[..|n.inFlight|] == n.inFlight;
    var s2 := Step(s1, a2);
    assert s2.nodes[id] == n.(clock := late, buffer := Encode(args), inFlight := []);
    PersistTaken(s2.nodes[id], key);
    var s3 := Step(s2, a3);
    assert s3.nodes[id].queue == [ApplyOne(args, n.taken)];
    var s4 := Step(s3, a4);
    states, actions := [s, s1, s2, s3, s4], [a1, a2, a3, a4];
  }

  lemma {:induction false} SetOnMaster(s: System, id: nat, key: Bytes, value: Bytes, deadline: nat)
    returns (a: Action)
    requires Inv(s) && id in s.nodes && |key| <= MAX_BULK && |value| <= MAX_BULK
    requires s.now < deadline <= INT64_MAX
    ensures Enabled(s, a)
    ensures var s' := Step(s, a);
            && s'.now == s.now && s'.nodes.Keys == s.nodes.Keys && s'.nodes[id].clock == s.nodes[id].clock
            && ViewOf(s'.master.db, s.now)
               == ViewOf(s.master.db, s.now)[key := Entry(value, Some(deadline))]
  {
    hide Run;
    hide InRange;
    hide MasterInv;
    hide NodeInv;
    hide ViewOf;
    hide CanonicalSet;
    hide WriteOf;
    hide Encode;
    hide Consistent;
    var v := ViewOf(s.master.db, s.now);
    var args := CanonicalSet(key, value, deadline);
    ViewIsCurrent(s.master.db, s.now);
    SetCanonical(key, value, deadline);
    CanonicalFits(args);
    CanonicalRuns(v, args, s.now);
    var w := v[key := Entry(value, Some(deadline))];
    DbShows(w, s.now);
    a := Command(args, DbOf(w));
  }

  lemma {:induction false} TakenIsApplied(m: Master, n: Node)
    requires NodeInv(n.clock, m, n) && Quiet(n)
    ensures n.applied == Some(n.taken) && Consistent(n.db)
  {
    hide LinkInv;
    hide QueueInv;
    hide ViewOf;
    hide ViewAt;
  }

  /** The replica shows the key until its deadline, and not then. */
  lemma {:induction false} GoneAtDeadline(db: Db, master: Db, key: Bytes, now: nat, clock: nat, deadline: nat)
    requires now <= clock < deadline && ViewOf(db, clock) == ViewOf(master, clock)
    requires key in ViewOf(master, now) && ViewOf(master, now)[key].deadline == Some(deadline)
    ensures key !in ViewOf(db, deadline)
  {
    hide ViewOf;
    ViewFades(master, now, clock);
    ViewFades(db, clock, deadline);
  }

  lemma {:induction false} StaysWithoutDeadline(db: Db, key: Bytes, now: nat, later: nat)
    requires now <= later && key in ViewOf(db, now) && ViewOf(db, now)[key].deadline.None?
    ensures key in ViewOf(db, later)
  {
    hide ViewOf;
    ViewFades(db, now, later);
  }

  /** The master sets a key with a deadline, the replica catches up, the master takes the
      deadline away, and that write is run when the deadline has passed. */
  lemma {:induction false} CanLose(s: System, id: nat, key: Bytes, value: Bytes)
    returns (states: seq<System>, actions: seq<Action>)
    requires Inv(s) && id in s.nodes && |key| <= MAX_BULK && |value| <= MAX_BULK
    requires s.nodes[id].clock < INT64_MAX && |ViewOf(s.master.db, s.now)| + 1 < Rdb.TWO_64
    ensures IsPath(states, actions) && states[0] == s
    ensures var last := states[|actions|];
            && id in last.nodes
            && var n := last.nodes[id];
            && Up(n) && Quiet(n) && n.applied == Some(|last.master.log|)
            && key in ViewOf(last.master.db, n.clock) && key !in ViewOf(n.db, n.clock)
  {
    hide MasterInv;
    hide NodeInv;
    hide Enabled;
    hide Step;
    hide ViewOf;
    hide Up;
    hide Encode;
    hide Consistent;
    var c := s.nodes[id].clock;
    var deadline := c + 1;
    var a1 := SetOnMaster(s, id, key, value, deadline);
    StepKeeps(s, a1);
    var s1 := Step(s, a1);
    var path, steps := CanCatchUp(s1, id);
    var s2 := path[|steps|];
    PathKeeps(path, steps, |steps|);
    var a3 := PersistOnMaster(s2, id, key);
    var s3 := Step(s2, a3);
    StepKeeps(s2, a3);
    GoneAtDeadline(s2.nodes[id].db, s2.master.db, key, s.now, c, deadline);
    TakenIsApplied(s2.master, s2.nodes[id]);
    StaysWithoutDeadline(s3.master.db, key, s.now, deadline);
    UpAgain(s2.nodes[id], s3.nodes[id]);
    assert [] + Encode(PersistOf(key)) == Encode(PersistOf(key));
    states, actions := RunTooLate(s3, id, key, deadline);
    OneStepMore(s2, a3, states, actions);
    states, actions := [s2] + states, [a3] + actions;
    PathGoesOn(path, steps, states, actions);
    states, actions := path + states[1..], steps + actions;
    OneStepMore(s, a1, states, actions);
    states, actions := [s] + states, [a1] + actions;
  }

  lemma {:induction false} UpAgain(n: Node, n': Node)
    requires Up(n) && n'.phase == n.phase && n'.attached == n.attached
    ensures Up(n')
  {}

  lemma {:induction false} PathKeeps(states: seq<System>, actions: seq<Action>, i: nat)
    requires IsPath(states, actions) && Inv(states[0]) && i < |states|
    ensures Inv(states[i])
    decreases i
  {
    hide Inv;
    hide Step;
    hide Enabled;
    if i > 0 {
      PathKeeps(states, actions, i - 1);
      StepKeeps(states[i - 1], actions[i - 1]);
    }
  }

  /** Agreement is not for free: every run can be continued, with any key, so that the
      replica stands at the end of the master's log, has nothing left to do, and does
      not show that key, which the master shows. */
  lemma {:induction false} EveryRunCanLose(
    states: seq<System>, actions: seq<Action>, id: nat, key: Bytes, value: Bytes)
    returns (more: seq<System>, steps: seq<Action>)
    requires IsRun(states, actions) && id in states[|actions|].nodes
    requires |key| <= MAX_BULK && |value| <= MAX_BULK
    requires var s := states[|actions|];
             s.nodes[id].clock < INT64_MAX && |ViewOf(s.master.db, s.now)| + 1 < Rdb.TWO_64
    ensures IsRun(states + more, actions + steps)
    ensures var last := (states + more)[|actions + steps|];
            && id in last.nodes
            && var n := last.nodes[id];
            && n.attached && Quiet(n) && n.applied == Some(|last.master.log|)
            && key in ViewOf(last.master.db, n.clock) && key !in ViewOf(n.db, n.clock)
  {
    hide Inv;
    hide Initial;
    hide Enabled;
    hide Step;
    hide ViewOf;
    RunKeeps(states, actions, |actions|);
    var path;
    path, steps := CanLose(states[|actions|], id, key, value);
    more := path[1..];
    RunGoesOn(states, actions, path, steps);
  }
}
