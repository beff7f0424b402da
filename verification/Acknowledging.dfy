/** Acknowledgements over whole runs: which offsets a replica says it has reached,
    in what order the master hears of them, and what the master knows once it has
    heard of all of them. */
module Acknowledging {
  import opened ByteStrings
  import opened Keyspace
  import opened Resp
  import opened Commands
  import opened Receiving
  import opened Replication
  import opened CatchingUp

  // ------------------------------------------------------------------
  // What was said on the present connection
  // ------------------------------------------------------------------

  /** The replica speaks every second, and when the stream asks it to. */
  predicate Speaks(n: Node, a: NodeAction)
  {
    a.SendAck? || (a.TakeCommand? && Parse(n.buffer).Ok? && Asks(Parse(n.buffer).args))
  }

  /** The step that leads to `n` opens a connection or leaves none. */
  predicate Breaks(n: Node, a: NodeAction) { a.Attach? || n.phase.Down? }

  ghost predicate Traced(states: seq<System>, actions: seq<Action>, id: nat)
  {
    |states| == |actions| + 1 && forall k :: 0 <= k < |states| ==> id in states[k].nodes
  }

  ghost predicate SpeaksAt(states: seq<System>, actions: seq<Action>, id: nat, k: nat)
    requires Traced(states, actions, id) && k < |actions|
  {
    actions[k].On? && actions[k].id == id && Speaks(states[k].nodes[id], actions[k].action)
  }

  ghost predicate BreaksAt(states: seq<System>, actions: seq<Action>, id: nat, k: nat)
    requires Traced(states, actions, id) && k < |actions|
  {
    actions[k].On? && actions[k].id == id && Breaks(states[k + 1].nodes[id], actions[k].action)
  }

  /** The offsets sent since the connection was made: each is the replica's offset in
      the state the sending step leads to, so a request counts its own bytes. */
  ghost function Said(states: seq<System>, actions: seq<Action>, id: nat, i: nat): seq<nat>
    requires Traced(states, actions, id) && i <= |actions|
  {
    if i == 0 || BreaksAt(states, actions, id, i - 1) then []
    else
      Said(states, actions, id, i - 1) +
      if SpeaksAt(states, actions, id, i - 1) then [states[i].nodes[id].offset] else []
  }

  /** How many of them the master has received. */
  ghost function Heard(states: seq<System>, actions: seq<Action>, id: nat, i: nat): nat
    requires Traced(states, actions, id) && i <= |actions|
  {
    if i == 0 || BreaksAt(states, actions, id, i - 1) then 0
    else Heard(states, actions, id, i - 1) + if actions[i - 1] == On(id, AckArrives) then 1 else 0
  }

  /** None is below an earlier one, or above `top`. */
  predicate Rising(said: seq<nat>, top: nat)
  {
    && (forall p, q :: 0 <= p <= q < |said| ==> said[p] <= said[q])
    && (forall p :: 0 <= p < |said| ==> said[p] <= top)
  }

  /** What is on its way is what was said and not yet heard, the master knows the last
      it heard, and nothing said goes back on what was said before. */
  predicate Faithful(n: Node, said: seq<nat>, heard: nat)
  {
    && heard <= |said| && n.acks == said[heard..]
    && n.acked == (if heard == 0 then 0 else said[heard - 1])
    && (said != [] ==> n.phase.Streaming?) && Rising(said, n.offset)
  }

  // ------------------------------------------------------------------
  // One step
  // ------------------------------------------------------------------

  /** A step of a node that keeps its connection: nothing but speaking and hearing
      touches the acknowledgements, and the offset never goes back. */
  lemma {:induction false} LinkStep(now: nat, m: Master, n: Node, a: NodeAction)
    requires NodeEnabled(now, m, n, a) && n.phase.Streaming? && !NodeStep(now, m, n, a).phase.Down?
    ensures var n' := NodeStep(now, m, n, a);
            && n'.phase.Streaming? && n.offset <= n'.offset
            && (if a.AckArrives? then n'.acks == n.acks[1..] && n'.acked == n.acks[0]
                else n'.acked == n.acked && n'.acks == n.acks + if Speaks(n, a) then [n'.offset] else [])
  {
    hide Parse;
    hide VerbOf;
    hide Upper;
    hide ViewOf;
    hide Lists;
    assert n.acks + [] == n.acks;
  }

  lemma {:induction false} QuietStep(now: nat, m: Master, n: Node, a: NodeAction)
    requires NodeEnabled(now, m, n, a) && !n.phase.Streaming? && n.acks == [] && n.acked == 0
    ensures var n' := NodeStep(now, m, n, a);
            n'.acks == [] && n'.acked == 0 && !Speaks(n, a) && !a.AckArrives?
  {
    hide Parse;
    hide VerbOf;
    hide Upper;
    hide ViewOf;
    hide Lists;
    hide FindCrlf;
    hide Rdb.Parse;
    hide HasPrefix;
  }

  function SaidNext(n: Node, n': Node, a: NodeAction, said: seq<nat>): seq<nat>
  {
    if Breaks(n', a) then [] else said + if Speaks(n, a) then [n'.offset] else []
  }

  function HeardNext(n': Node, a: NodeAction, heard: nat): nat
  {
    if Breaks(n', a) then 0 else heard + if a.AckArrives? then 1 else 0
  }

  lemma {:induction false} SilentUnlessStreaming(now: nat, m: Master, n: Node)
    requires NodeInv(now, m, n) && !n.phase.Streaming?
    ensures n.acks == [] && n.acked == 0
  {
    hide StoreInv;
    hide QueueInv;
    hide AckInv;
  }

  lemma {:induction false} FaithfulStep(now: nat, m: Master, n: Node, a: NodeAction, said: seq<nat>, heard: nat)
    requires NodeEnabled(now, m, n, a) && Faithful(n, said, heard) && NodeInv(n.clock, m, n)
    requires var n' := NodeStep(now, m, n, a); NodeInv(n'.clock, m, n')
    ensures var n' := NodeStep(now, m, n, a);
            Faithful(n', SaidNext(n, n', a, said), HeardNext(n', a, heard))
  {
    hide NodeStep;
    hide NodeEnabled;
    hide NodeInv;
    hide Speaks;
    hide Rising;
    var n' := NodeStep(now, m, n, a);
    RisingNothing(n'.offset);
    if n'.phase.Down? {
      SilentUnlessStreaming(n'.clock, m, n');
    } else if n.phase.Streaming? {
      LinkStep(now, m, n, a);
      AttachIsFromDown(now, m, n, a);
      RisesOn(said, n.offset, [], n'.offset);
      assert said + [] == said;
      if a.AckArrives? {
        HeardOne(n, said, heard);
        NoSpeaking(n, a);
      } else {
        SaidOne(n, n', said, heard, if Speaks(n, a) then [n'.offset] else []);
      }
    } else {
      SilentUnlessStreaming(n.clock, m, n);
      QuietStep(now, m, n, a);
      assert said == [];
    }
  }

  lemma {:induction false} SaidOne(n: Node, n': Node, said: seq<nat>, heard: nat, more: seq<nat>)
    requires Faithful(n, said, heard) && (more == [] || more == [n'.offset])
    requires n'.phase.Streaming? && n.offset <= n'.offset
    requires n'.acks == n.acks + more && n'.acked == n.acked
    ensures Faithful(n', said + more, heard)
  {
    hide Rising;
    assert (said + more)[heard..] == said[heard..] + more;
    RisesOn(said, n.offset, more, n'.offset);
  }

  lemma {:induction false} RisesOn(said: seq<nat>, top: nat, more: seq<nat>, top': nat)
    requires Rising(said, top) && top <= top' && (more == [] || more == [top'])
    ensures Rising(said + more, top')
  {
    var all := said + more;
    forall p, q | 0 <= p <= q < |all|
      ensures all[p] <= all[q] <= top'
    {
      if p < |said| {
        assert said[p] <= top;
      }
    }
  }

  lemma {:induction false} RisingNothing(top: nat)
    ensures Rising([], top)
  {}

  lemma {:induction false} AttachIsFromDown(now: nat, m: Master, n: Node, a: NodeAction)
    requires NodeEnabled(now, m, n, a)
    ensures a.Attach? ==> n.phase.Down?
    ensures a.AckArrives? ==> n.acks != []
  {
    hide Parse;
    hide ViewOf;
    hide Lists;
  }

  lemma {:induction false} NoSpeaking(n: Node, a: NodeAction)
    requires a.AckArrives?
    ensures !Speaks(n, a)
  {}

  lemma {:induction false} HeardOne(n: Node, said: seq<nat>, heard: nat)
    requires Faithful(n, said, heard) && n.acks != []
    ensures heard < |said| && n.acks[0] == said[heard] && n.acks[1..] == said[heard + 1..]
  {}

  // ------------------------------------------------------------------
  // Every run
  // ------------------------------------------------------------------

  /** What another's step, or the master's, leaves alone. */
  lemma {:induction false} Bystander(s: System, a: Action, id: nat)
    requires Enabled(s, a) && id in s.nodes
    ensures var s' := Step(s, a);
            && s'.nodes.Keys == s.nodes.Keys
            && (!(a.On? && a.id == id) ==>
                  var n, n' := s.nodes[id], s'.nodes[id];
                  n'.acks == n.acks && n'.acked == n.acked && n'.offset == n.offset && n'.phase == n.phase)
  {
    hide NodeEnabled;
    hide NodeStep;
    hide Run;
    hide InRange;
    hide WithinLimits;
    hide ViewOf;
  }

  lemma {:induction false} RunIsTraced(states: seq<System>, actions: seq<Action>, i: nat, id: nat)
    requires IsRun(states, actions) && i < |states| && id in states[i].nodes
    ensures Traced(states, actions, id)
  {
    hide Step;
    hide Enabled;
    hide Initial;
    forall k | 0 <= k < |states|
      ensures id in states[k].nodes
    {
      SameNodes(states, actions, i);
      SameNodes(states, actions, k);
    }
  }

  lemma {:induction false} SameNodes(states: seq<System>, actions: seq<Action>, i: nat)
    requires IsRun(states, actions) && i < |states|
    ensures states[i].nodes.Keys == states[0].nodes.Keys
  {
    hide Step;
    hide Enabled;
    hide Initial;
    if i > 0 {
      SameNodes(states, actions, i - 1);
      KeysStay(states[i - 1], actions[i - 1]);
    }
  }

  lemma {:induction false} KeysStay(s: System, a: Action)
    requires Enabled(s, a)
    ensures Step(s, a).nodes.Keys == s.nodes.Keys
  {
    hide NodeEnabled;
    hide NodeStep;
    hide Run;
    hide InRange;
    hide WithinLimits;
    hide ViewOf;
  }

  /** In every state of every run: acknowledgements arrive in the order in which they
      were sent, none is lost while the connection lasts, each says the offset the
      replica had reached when it was sent, and they never go down. */
  lemma {:induction false} AcksAreFaithful(states: seq<System>, actions: seq<Action>, i: nat, id: nat)
    requires IsRun(states, actions) && i < |states| && id in states[i].nodes
    ensures Traced(states, actions, id)
    ensures Faithful(states[i].nodes[id], Said(states, actions, id, i), Heard(states, actions, id, i))
  {
    hide Step;
    hide Enabled;
    hide Faithful;
    hide IsRun;
    hide Inv;
    hide Initial;
    hide Said;
    hide Heard;
    hide SaidNext;
    hide HeardNext;
    RunIsTraced(states, actions, i, id);
    RunShape(states, actions, i);
    if i == 0 {
      SilentAtFirst(states[0], id);
      NothingSaid(states, actions, id);
    } else {
      AcksAreFaithful(states, actions, i - 1, id);
      RunKeeps(states, actions, i - 1);
      RunKeeps(states, actions, i);
      var said, heard := Said(states, actions, id, i - 1), Heard(states, actions, id, i - 1);
      OneMoreStep(states[i - 1], actions[i - 1], id, said, heard);
      SaidGrows(states, actions, id, i - 1);
    }
  }

  lemma {:induction false} RunShape(states: seq<System>, actions: seq<Action>, i: nat)
    requires IsRun(states, actions) && i < |states|
    ensures |states| == |actions| + 1 && Initial(states[0])
    ensures i > 0 ==> Enabled(states[i - 1], actions[i - 1]) && states[i] == Step(states[i - 1], actions[i - 1])
  {
    hide Step;
    hide Enabled;
    hide Initial;
  }

  lemma {:induction false} NothingSaid(states: seq<System>, actions: seq<Action>, id: nat)
    requires Traced(states, actions, id)
    ensures Said(states, actions, id, 0) == [] && Heard(states, actions, id, 0) == 0
  {}

  lemma {:induction false} SaidGrows(states: seq<System>, actions: seq<Action>, id: nat, k: nat)
    requires Traced(states, actions, id) && k < |actions|
    ensures var said, heard := Said(states, actions, id, k), Heard(states, actions, id, k);
            var n, n' := states[k].nodes[id], states[k + 1].nodes[id];
            var a := actions[k];
            if a.On? && a.id == id then
              && Said(states, actions, id, k + 1) == SaidNext(n, n', a.action, said)
              && Heard(states, actions, id, k + 1) == HeardNext(n', a.action, heard)
            else Said(states, actions, id, k + 1) == said && Heard(states, actions, id, k + 1) == heard
  {
    hide Speaks;
    assert Said(states, actions, id, k) + [] == Said(states, actions, id, k);
  }

  lemma {:induction false} SilentAtFirst(s: System, id: nat)
    requires Initial(s) && id in s.nodes
    ensures Faithful(s.nodes[id], [], 0)
  {}

  lemma {:induction false} OneMoreStep(s: System, a: Action, id: nat, said: seq<nat>, heard: nat)
    requires Enabled(s, a) && Inv(s) && Inv(Step(s, a)) && id in s.nodes
    requires Faithful(s.nodes[id], said, heard)
    ensures var s' := Step(s, a);
            id in s'.nodes &&
            if a.On? && a.id == id then
              var n' := s'.nodes[id];
              Faithful(n', SaidNext(s.nodes[id], n', a.action, said), HeardNext(n', a.action, heard))
            else Faithful(s'.nodes[id], said, heard)
  {
    hide NodeInv;
    hide MasterInv;
    hide Run;
    hide ViewOf;
    hide WithinLimits;
    hide InRange;
    hide NodeStep;
    hide NodeEnabled;
    hide Propagate;
    hide Speaks;
    Bystander(s, a, id);
    if a.On? && a.id == id {
      var n' := NodeStep(s.now, s.master, s.nodes[id], a.action);
      assert Step(s, a).nodes[id] == n';
      assert Step(s, a).master == s.master;
      FaithfulStep(s.now, s.master, s.nodes[id], a.action, said, heard);
    } else {
      assert Faithful(Step(s, a).nodes[id], said, heard);
    }
  }

  // ------------------------------------------------------------------
  // What the master learns
  // ------------------------------------------------------------------

  ghost predicate Unbroken(states: seq<System>, actions: seq<Action>, id: nat, from: nat, i: nat)
    requires Traced(states, actions, id) && i <= |actions|
  {
    forall x: nat :: from <= x < i ==> !BreaksAt(states, actions, id, x)
  }

  /** Whatever was said on this connection was said at a step of it. */
  lemma {:induction false} SaidAtStep(states: seq<System>, actions: seq<Action>, id: nat, i: nat, p: nat)
    returns (j: nat)
    requires Traced(states, actions, id) && i <= |actions| && p < |Said(states, actions, id, i)|
    ensures j < i && SpeaksAt(states, actions, id, j) && Unbroken(states, actions, id, j, i)
    ensures Said(states, actions, id, i)[p] == states[j + 1].nodes[id].offset
  {
    hide Speaks;
    var before := Said(states, actions, id, i - 1);
    if p < |before| {
      j := SaidAtStep(states, actions, id, i - 1, p);
    } else {
      j := i - 1;
    }
  }

  /** What is said stays said while the connection lasts. */
  lemma {:induction false} StaysSaid(states: seq<System>, actions: seq<Action>, id: nat, k: nat, i: nat)
    requires Traced(states, actions, id) && k <= i <= |actions| && Unbroken(states, actions, id, k, i)
    ensures Said(states, actions, id, k) <= Said(states, actions, id, i)
    decreases i - k
  {
    hide SpeaksAt;
    if k < i {
      StaysSaid(states, actions, id, k, i - 1);
    }
  }

  /** The offset the master records when an acknowledgement arrives is the one the
      replica had in the state in which it sent it, and none it recorded before on
      this connection was higher. */
  lemma {:induction false} ArrivedWasSent(states: seq<System>, actions: seq<Action>, k: nat, id: nat)
    returns (j: nat)
    requires IsRun(states, actions) && k < |actions| && id in states[k].nodes
    requires actions[k] == On(id, AckArrives)
    ensures Traced(states, actions, id)
    ensures j < k && SpeaksAt(states, actions, id, j) && Unbroken(states, actions, id, j, k)
    ensures states[k + 1].nodes[id].acked == states[j + 1].nodes[id].offset
    ensures states[k].nodes[id].acked <= states[k + 1].nodes[id].acked
  {
    hide Initial;
    hide Enabled;
    hide Step;
    hide Said;
    hide SpeaksAt;
    hide Unbroken;
    AcksAreFaithful(states, actions, k, id);
    RunShape(states, actions, k + 1);
    var n := states[k].nodes[id];
    ArrivalStep(states[k], id);
    var said, heard := Said(states, actions, id, k), Heard(states, actions, id, k);
    HeardOne(n, said, heard);
    j := SaidAtStep(states, actions, id, k, heard);
  }

  lemma {:induction false} ArrivalStep(s: System, id: nat)
    requires Enabled(s, On(id, AckArrives))
    ensures id in s.nodes && s.nodes[id].acks != []
    ensures Step(s, On(id, AckArrives)).nodes[id].acked == s.nodes[id].acks[0]
  {}

  /** The offset an acknowledgement carries: the replica's own when it speaks of itself,
      and counting the request that made it speak. */
  lemma {:induction false} WhatIsSaid(states: seq<System>, actions: seq<Action>, j: nat, id: nat)
    requires IsRun(states, actions) && j < |actions| && Traced(states, actions, id)
    requires SpeaksAt(states, actions, id, j)
    ensures var n, n' := states[j].nodes[id], states[j + 1].nodes[id];
            n'.offset == n.offset + if actions[j].action.SendAck? then 0 else Parse(n.buffer).consumed
  {
    hide Initial;
    hide Enabled;
    hide Step;
    hide Parse;
    hide Asks;
    RunShape(states, actions, j + 1);
    SpokenOffset(states[j], id, actions[j].action);
  }

  lemma {:induction false} SpokenOffset(s: System, id: nat, a: NodeAction)
    requires Enabled(s, On(id, a)) && Speaks(s.nodes[id], a)
    ensures var n, n' := s.nodes[id], Step(s, On(id, a)).nodes[id];
            n'.offset == n.offset + if a.SendAck? then 0 else Parse(n.buffer).consumed
  {
    hide Parse;
    hide Asks;
    hide VerbOf;
    hide Upper;
  }

  /** Once the master has heard all that was said, it knows at least the offset of
      every step that spoke, and never more than its own. */
  lemma {:induction false} HeardAll(states: seq<System>, actions: seq<Action>, k: nat, i: nat, id: nat)
    requires IsRun(states, actions) && k < i < |states| && id in states[i].nodes && Traced(states, actions, id)
    requires SpeaksAt(states, actions, id, k) && Unbroken(states, actions, id, k, i)
    requires states[i].nodes[id].acks == []
    ensures states[k + 1].nodes[id].offset <= states[i].nodes[id].acked <= states[i].master.offset
  {
    hide IsRun;
    hide SpeaksAt;
    hide BreaksAt;
    hide Said;
    hide Heard;
    hide Faithful;
    hide Step;
    hide Enabled;
    hide Initial;
    RunShape(states, actions, i);
    OffsetsConserved(states, actions, i, id);
    AcksAreFaithful(states, actions, i, id);
    StaysSaid(states, actions, id, k + 1, i);
    SaidHere(states, actions, id, k);
    var p := |Said(states, actions, id, k)|;
    AllHeard(states[i].nodes[id], Said(states, actions, id, i), Heard(states, actions, id, i), p);
  }

  lemma {:induction false} SaidHere(states: seq<System>, actions: seq<Action>, id: nat, k: nat)
    requires Traced(states, actions, id) && k < |actions|
    requires SpeaksAt(states, actions, id, k) && !BreaksAt(states, actions, id, k)
    ensures Said(states, actions, id, k + 1) == Said(states, actions, id, k) + [states[k + 1].nodes[id].offset]
  {
    hide SpeaksAt;
    hide BreaksAt;
  }

  lemma {:induction false} AllHeard(n: Node, said: seq<nat>, heard: nat, p: nat)
    requires Faithful(n, said, heard) && n.acks == [] && p < |said|
    ensures said[p] <= n.acked
  {
    assert heard == |said|;
  }

  /** A replica at rest that speaks once more: when all it said has been heard and
      nothing has been written since, the master knows it has everything. */
  lemma {:induction false} RestIsAcknowledged(states: seq<System>, actions: seq<Action>, k: nat, i: nat, id: nat)
    requires IsRun(states, actions) && k < i < |states| && id in states[i].nodes && Traced(states, actions, id)
    requires Quiet(states[k].nodes[id]) && states[k].nodes[id].attached && actions[k] == On(id, SendAck)
    requires Unbroken(states, actions, id, k, i) && states[i].master.offset == states[k].master.offset
    requires states[i].nodes[id].acks == []
    ensures states[i].nodes[id].acked == states[i].master.offset
  {
    hide IsRun;
    hide BreaksAt;
    hide Quiet;
    RestIsAtTheEnd(states, actions, k, id);
    assert SpeaksAt(states, actions, id, k);
    WhatIsSaid(states, actions, k, id);
    HeardAll(states, actions, k, i, id);
  }

  lemma {:induction false} RestIsAtTheEnd(states: seq<System>, actions: seq<Action>, k: nat, id: nat)
    requires IsRun(states, actions) && k < |states| && id in states[k].nodes
    requires Quiet(states[k].nodes[id]) && states[k].nodes[id].attached
    ensures states[k].nodes[id].offset == states[k].master.offset
  {
    hide IsRun;
    OffsetsConserved(states, actions, k, id);
  }

  lemma {:induction false} OneHeard(s: System, id: nat)
    requires id in s.nodes && s.nodes[id].acks != []
    ensures Enabled(s, On(id, AckArrives))
    ensures var n := s.nodes[id];
            Step(s, On(id, AckArrives)) == s.(nodes := s.nodes[id := n.(acks := n.acks[1..], acked := n.acks[0])])
  {}

  function HeardOut(n: Node): Node
    requires n.acks != []
  {
    n.(acks := [], acked := n.acks[|n.acks| - 1])
  }

  lemma {:induction false} CanHear(s: System, id: nat) returns (states: seq<System>, actions: seq<Action>)
    requires id in s.nodes && s.nodes[id].acks != []
    ensures IsPath(states, actions) && states[0] == s
    ensures states[|actions|] == s.(nodes := s.nodes[id := HeardOut(s.nodes[id])])
    decreases |s.nodes[id].acks|
  {
    hide Enabled;
    hide Step;
    var n := s.nodes[id];
    var a := On(id, AckArrives);
    OneHeard(s, id);
    var s' := Step(s, a);
    if |n.acks| == 1 {
      states, actions := [s, s'], [a];
    } else {
      states, actions := CanHear(s', id);
      OneStepMore(s, a, states, actions);
      states, actions := [s] + states, [a] + actions;
    }
  }

  /** Every run can be continued, without another write, to a state in which the
      replica shows what the master shows and the master knows it. */
  lemma {:induction false} EveryRunCanBeAcknowledged(states: seq<System>, actions: seq<Action>, id: nat)
    returns (more: seq<System>, steps: seq<Action>)
    requires IsRun(states, actions) && id in states[|actions|].nodes
    requires var s := states[|actions|]; |ViewOf(s.master.db, s.now)| < Rdb.TWO_64
    ensures IsRun(states + more, actions + steps)
    ensures var s := states[|actions|];
            var last := (states + more)[|actions + steps|];
            && last.master == s.master && last.now == s.now && id in last.nodes
            && var n := last.nodes[id];
            && Quiet(n) && n.attached && n.acks == [] && n.acked == s.master.offset
            && ViewOf(n.db, n.clock) == ViewOf(s.master.db, n.clock)
  {
    hide Initial;
    hide Enabled;
    hide Step;
    hide ViewOf;
    hide Rdb.TWO_64;
    var middle, acts := EveryRunCanCatchUp(states, actions, id);
    var all, done := states + middle, actions + acts;
    var path, arrivals := SpeakAndBeHeard(all[|done|], id);
    RunGoesOn(all, done, path, arrivals);
    more, steps := middle + path[1..], acts + arrivals;
    assert states + more == all + path[1..] && actions + steps == done + arrivals;
  }

  lemma {:induction false} SpeakAndBeHeard(s: System, id: nat) returns (states: seq<System>, actions: seq<Action>)
    requires id in s.nodes && s.nodes[id].phase.Streaming?
    ensures IsPath(states, actions) && states[0] == s
    ensures var n := s.nodes[id];
            states[|actions|] == s.(nodes := s.nodes[id := n.(acks := [], acked := n.offset)])
  {
    var n := s.nodes[id];
    var a := On(id, SendAck);
    assert Enabled(s, a);
    states, actions := CanHear(Step(s, a), id);
    OneStepMore(s, a, states, actions);
    states, actions := [s] + states, [a] + actions;
  }
}
