/** The master's end of replication as the server keeps it: the offset, the list
    of replicas and the ports announced before a connection is promoted. */
module MasterLinks {
  import opened ByteStrings
  import opened Keyspace
  import opened Resp
  import opened Framing
  import opened Receiving
  import opened Storage
  import Commands
  import Persistence
  import Rdb
  import RdbCodec
  import Replication

  datatype Replica = Replica(link: nat, listeningPort: nat, ackOffset: int)

  /** How often a link is listed: once for every resync it has asked for. */
  function Entries(replicas: seq<Replica>, link: nat): nat
  {
    if replicas == [] then 0
    else Entries(replicas[..|replicas| - 1], link) + if replicas[|replicas| - 1].link == link then 1 else 0
  }

  function Removed(replicas: seq<Replica>, link: nat): seq<Replica>
  {
    if replicas == [] then []
    else
      var last := replicas[|replicas| - 1];
      Removed(replicas[..|replicas| - 1], link) + if last.link == link then [] else [last]
  }

  /** Exactly the other replicas are kept, with what is recorded of them. */
  lemma {:induction false} RemovedKeeps(replicas: seq<Replica>, link: nat)
    ensures forall other :: Entries(Removed(replicas, link), other) ==
                            if other == link then 0 else Entries(replicas, other)
    ensures forall r :: r in Removed(replicas, link) <==> r in replicas && r.link != link
    decreases |replicas|
  {
    if replicas != [] {
      var front := replicas[..|replicas| - 1];
      var last := replicas[|replicas| - 1];
      RemovedKeeps(front, link);
      var rest := Removed(replicas, link);
      if last.link == link {
        assert rest == Removed(front, link);
      } else {
        assert rest[..|rest| - 1] == Removed(front, link);
      }
    }
  }

  lemma {:induction false} OneMoreEntry(replicas: seq<Replica>, r: Replica)
    ensures forall link :: Entries(replicas + [r], link) ==
                           Entries(replicas, link) + if r.link == link then 1 else 0
  {
    assert (replicas + [r])[..|replicas|] == replicas;
  }

  lemma {:induction false} SameEntries(a: seq<Replica>, b: seq<Replica>)
    requires |a| == |b| && forall i :: 0 <= i < |a| ==> a[i].link == b[i].link
    ensures forall link :: Entries(a, link) == Entries(b, link)
  {
    if a != [] {
      SameEntries(a[..|a| - 1], b[..|b| - 1]);
    }
  }

  /** The same bytes, `k` times over. */
  function Repeat(bytes: Bytes, k: nat): Bytes
  {
    if k == 0 then [] else Repeat(bytes, k - 1) + bytes
  }

  lemma {:induction false} RepeatOnce(bytes: Bytes)
    ensures Repeat(bytes, 0) == [] && Repeat(bytes, 1) == bytes
  {
    assert Repeat(bytes, 0) + bytes == bytes;
  }

  class ReplicationMaster {
    const store: Store
    const replid: Bytes
    var masterOffset: nat
    var replicas: seq<Replica>
    var pendingPorts: map<nat, nat>
    /** Everything queued so far on each open connection. */
    var output: map<nat, Bytes>

    /** For each attached link, its output up to the end of its resync, and the
        commands propagated since. */
    ghost var opening: map<nat, Bytes>
    ghost var since: map<nat, seq<Args>>
    /** Every command propagated from the start. */
    ghost var stream: seq<Args>

    constructor (store: Store, replid: Bytes)
      requires store.Valid()
      ensures Valid() && this.store == store && replicas == [] && masterOffset == 0 && output == map[]
    {
      this.store, this.replid := store, replid;
      masterOffset, replicas, pendingPorts, output := 0, [], map[], map[];
      opening, since, stream := map[], map[], [];
      new;
      assert EncodeEach([]) == [];
    }

    /** A link that asked for one resync has been sent it and then every command
        propagated since, in order and once, and nothing else; the offset is the
        length of the stream, attached replicas or not. */
    ghost predicate Valid()
      reads this
    {
      && masterOffset == |EncodeAll(stream)|
      && (forall link :: Entries(replicas, link) > 0 ==> link in output)
      && (forall link :: Entries(replicas, link) == 1 ==>
            && link in opening && link in since
            && output[link] == opening[link] + EncodeAll(since[link]))
    }

    /** A client connects. */
    method Accept(link: nat)
      requires Valid() && link !in output
      modifies this`output
      ensures Valid() && output == old(output)[link := []]
    {
      output := output[link := []];
    }

    /** ClientLink::send. */
    method Send(link: nat, bytes: Bytes)
      modifies this`output
      ensures output == if link in old(output) then old(output)[link := old(output)[link] + bytes] else old(output)
    {
      if link in output {
        output := output[link := output[link] + bytes];
      }
    }

    /** PSYNC: announcement, size and payload go out, then the link is a replica, once
        more if it was one before.  Without a link, as when a log is replayed,
        nothing happens. */
    method StartFullResync(client: Option<nat>, now: nat) returns (ghost records: seq<Record>)
      requires Valid() && store.Valid()
      requires client.Some? ==> client.value in output
      requires Commands.Storable(store.Live(now)) && |store.Live(now)| < Rdb.TWO_64
      modifies this
      ensures Valid()
      ensures client.None? ==> unchanged(this)
      ensures client.Some? ==>
                var link := client.value;
                && Keyspace.Lists(records, store.Live(now)) && Rdb.Saveable(records)
                && output == old(output)[link := old(output)[link]
                                + ResyncBytes(replid, old(masterOffset), Rdb.Serialize(records))]
                && masterOffset == old(masterOffset) && stream == old(stream)
                && pendingPorts == old(pendingPorts)
                && replicas == old(replicas)
                     + [Replica(link, if link in pendingPorts then pendingPorts[link] else 0, 0)]
                && since == old(since)[link := []]
    {
      hide EncodeAll;
      hide Entries;
      hide ResyncBytes;
      hide Rdb.Serialize;
      hide Rdb.Saveable;
      hide Keyspace.Lists;
      hide ViewOf;
      hide Commands.Storable;
      records := [];
      if client.None? {
        return;
      }
      var link := client.value;
      records := SendSnapshot(link, now);
      var port := if link in pendingPorts then pendingPorts[link] else 0;
      OneMoreEntry(replicas, Replica(link, port, 0));
      replicas := replicas + [Replica(link, port, 0)];
      opening := opening[link := output[link]];
      since := since[link := []];
      NothingSent(output[link]);
    }

    /** The announcement carries the offset from before the snapshot is taken. */
    method SendSnapshot(link: nat, now: nat) returns (ghost records: seq<Record>)
      requires store.Valid() && link in output
      requires Commands.Storable(store.Live(now)) && |store.Live(now)| < Rdb.TWO_64
      modifies this`output
      ensures Keyspace.Lists(records, store.Live(now)) && Rdb.Saveable(records)
      ensures output == old(output)[link := old(output)[link]
                          + ResyncBytes(replid, masterOffset, Rdb.Serialize(records))]
    {
      hide ResyncText;
      hide LengthLine;
      hide Rdb.Serialize;
      hide Rdb.Saveable;
      hide Keyspace.Lists;
      hide ViewOf;
      hide Commands.Storable;
      ghost var before := output[link];
      Send(link, ResyncText(replid, masterOffset) + CRLF);
      var snapshot := store.Snapshot(now);
      records := snapshot;
      ViewIsCurrent(store.Contents(), now);
      Persistence.ListsCounts(records, store.Live(now));
      Persistence.ListedIsSaveable(records, store.Live(now), now);
      var payload := RdbCodec.SerializeSnapshot(snapshot);
      Send(link, LengthLine(DOLLAR, |payload|));
      Send(link, payload);
      ghost var line := ResyncText(replid, masterOffset) + CRLF;
      assert before + line + LengthLine(DOLLAR, |payload|) + payload
          == before + (line + (LengthLine(DOLLAR, |payload|) + payload));
    }

    method SetReplicaPort(link: nat, port: nat)
      requires Valid()
      modifies this`replicas, this`pendingPorts
      ensures Valid() && |replicas| == |old(replicas)|
      ensures forall i :: 0 <= i < |replicas| ==>
                replicas[i] == if old(replicas)[i].link == link then old(replicas)[i].(listeningPort := port)
                               else old(replicas)[i]
      ensures pendingPorts == old(pendingPorts)[link := port]
    {
      hide EncodeAll;
      hide Entries;
      var i := 0;
      while i < |replicas|
        invariant 0 <= i <= |replicas| == |old(replicas)|
        invariant forall j :: 0 <= j < |replicas| ==>
                    replicas[j] == if j < i && old(replicas)[j].link == link
                                   then old(replicas)[j].(listeningPort := port) else old(replicas)[j]
        invariant pendingPorts == old(pendingPorts)
      {
        if replicas[i].link == link {
          replicas := replicas[i := replicas[i].(listeningPort := port)];
        }
        i := i + 1;
      }
      pendingPorts := pendingPorts[link := port];
      SameEntries(old(replicas), replicas);
    }

    /** REPLCONF ACK: recorded for that link and no other. */
    method OnReplicaAck(link: nat, offset: int)
      requires Valid()
      modifies this`replicas
      ensures Valid() && |replicas| == |old(replicas)|
      ensures forall i :: 0 <= i < |replicas| ==>
                replicas[i] == if old(replicas)[i].link == link then old(replicas)[i].(ackOffset := offset)
                               else old(replicas)[i]
    {
      hide EncodeAll;
      hide Entries;
      var i := 0;
      while i < |replicas|
        invariant 0 <= i <= |replicas| == |old(replicas)|
        invariant forall j :: 0 <= j < |replicas| ==>
                    replicas[j] == if j < i && old(replicas)[j].link == link
                                   then old(replicas)[j].(ackOffset := offset) else old(replicas)[j]
      {
        if replicas[i].link == link {
          replicas := replicas[i := replicas[i].(ackOffset := offset)];
        }
        i := i + 1;
      }
      SameEntries(old(replicas), replicas);
    }

    /** A dropped link is fed no more. */
    method OnDisconnect(link: nat)
      requires Valid()
      modifies this`replicas, this`pendingPorts, this`output
      ensures Valid() && Entries(replicas, link) == 0
      ensures replicas == Removed(old(replicas), link)
      ensures output == old(output) - {link} && pendingPorts == old(pendingPorts) - {link}
    {
      hide EncodeAll;
      hide Entries;
      hide Removed;
      RemovedKeeps(replicas, link);
      replicas := Removed(replicas, link);
      pendingPorts := pendingPorts - {link};
      output := output - {link};
    }

    /** Replication::propagate: the offset advances in any case, and every link is sent
        the command once for each time it is listed. */
    method Propagate(args: Args)
      requires Valid()
      modifies this`masterOffset, this`output, this`since, this`stream
      ensures Valid() && stream == old(stream) + [args]
      ensures masterOffset == old(masterOffset) + |Encode(args)|
      ensures output.Keys == old(output).Keys
      ensures forall link :: link in output ==>
                output[link] == old(output)[link] + Repeat(Encode(args), Entries(replicas, link))
    {
      hide EncodeAll;
      hide Encode;
      hide Entries;
      hide Repeat;
      var encoded := EncodeCommand(args);
      masterOffset := masterOffset + |encoded|;
      EncodeAllSplit(stream, [args]);
      EncodeAllOne(args);
      stream := stream + [args];
      SendAll(encoded);
      since := map link | link in since :: since[link] + [args];
      forall link | Entries(replicas, link) == 1
        ensures link in opening && link in since
        ensures output[link] == opening[link] + EncodeAll(since[link])
      {
        RepeatOnce(encoded);
        ToldOneMore(opening[link], old(since)[link], args);
      }
    }

    method SendAll(encoded: Bytes)
      requires forall link :: Entries(replicas, link) > 0 ==> link in output
      modifies this`output
      ensures output.Keys == old(output).Keys
      ensures forall link :: link in output ==>
                output[link] == old(output)[link] + Repeat(encoded, Entries(replicas, link))
    {
      hide Entries;
      hide Repeat;
      var i := 0;
      NoneYet(replicas, encoded);
      while i < |replicas|
        invariant 0 <= i <= |replicas|
        invariant output.Keys == old(output).Keys
        invariant forall link :: link in output ==>
                    output[link] == old(output)[link] + Repeat(encoded, Entries(replicas[..i], link))
      {
        var link := replicas[i].link;
        OneMoreSent(replicas, i, encoded);
        ghost var before := output;
        Send(link, encoded);
        assert before[link] + encoded
            == old(output)[link] + (Repeat(encoded, Entries(replicas[..i], link)) + encoded);
        i := i + 1;
      }
      assert replicas[..|replicas|] == replicas;
    }
  }

  lemma {:induction false} ToldOneMore(opening: Bytes, since: seq<Args>, args: Args)
    ensures opening + EncodeAll(since + [args]) == opening + EncodeAll(since) + Encode(args)
  {
    hide EncodeAll;
    hide Encode;
    EncodeAllSplit(since, [args]);
    EncodeAllOne(args);
    assert opening + (EncodeAll(since) + Encode(args)) == opening + EncodeAll(since) + Encode(args);
  }

  lemma {:induction false} NothingSent(x: Bytes)
    ensures x + EncodeAll([]) == x
  {
    assert EncodeEach([]) == [];
  }

  lemma {:induction false} NoneYet(replicas: seq<Replica>, bytes: Bytes)
    ensures forall link :: Entries(replicas[..0], link) == 0
    ensures Repeat(bytes, 0) == []
  {}

  lemma {:induction false} OneMoreSent(replicas: seq<Replica>, i: nat, bytes: Bytes)
    requires i < |replicas|
    ensures var link := replicas[i].link;
            && Entries(replicas, link) > 0
            && Repeat(bytes, Entries(replicas[..i + 1], link))
               == Repeat(bytes, Entries(replicas[..i], link)) + bytes
    ensures forall other :: other != replicas[i].link ==>
              Entries(replicas[..i + 1], other) == Entries(replicas[..i], other)
  {
    assert replicas[..i + 1][..i] == replicas[..i];
    SomeEntry(replicas, i);
  }

  lemma {:induction false} SomeEntry(replicas: seq<Replica>, i: nat)
    requires i < |replicas|
    ensures Entries(replicas, replicas[i].link) > 0
  {
    if i < |replicas| - 1 {
      SomeEntry(replicas[..|replicas| - 1], i);
    }
  }

  // ------------------------------------------------------------------
  // The steps of the protocol
  // ------------------------------------------------------------------

  /** The server's record and a state of the protocol tell the same: a link is listed
      once while the node is attached, and what was queued on it is what has been
      delivered followed by what is in flight. */
  ghost predicate Represents(
    offset: nat, replicas: seq<Replica>, output: map<nat, Bytes>, delivered: map<nat, Bytes>, s: Replication.System)
  {
    && offset == s.master.offset
    && forall id :: id in s.nodes ==>
         && Entries(replicas, id) == (if s.nodes[id].attached then 1 else 0)
         && (s.nodes[id].attached ==>
               id in output && id in delivered && output[id] == delivered[id] + s.nodes[id].inFlight)
  }

  /** Propagate, as the method leaves things, is the protocol's propagation. */
  lemma {:induction false} PropagateIsStep(
    offset: nat, replicas: seq<Replica>, output: map<nat, Bytes>, output': map<nat, Bytes>,
    delivered: map<nat, Bytes>, s: Replication.System, args: Args, db': Db)
    requires Represents(offset, replicas, output, delivered, s)
    requires output'.Keys == output.Keys
    requires forall link :: link in output ==>
               output'[link] == output[link] + Repeat(Encode(args), Entries(replicas, link))
    ensures Represents(offset + |Encode(args)|, replicas, output', delivered, Replication.Propagate(s, args, db'))
  {
    hide Encode;
    hide Entries;
    hide Repeat;
    var s' := Replication.Propagate(s, args, db');
    RepeatOnce(Encode(args));
    forall id | id in s'.nodes && s'.nodes[id].attached
      ensures id in output' && id in delivered && output'[id] == delivered[id] + s'.nodes[id].inFlight
    {
      var bytes := s.nodes[id].inFlight;
      assert delivered[id] + bytes + Encode(args) == delivered[id] + (bytes + Encode(args));
    }
  }

  /** A first resync, as the method leaves things, is the protocol's. */
  lemma {:induction false} ResyncIsStep(
    offset: nat, replicas: seq<Replica>, output: map<nat, Bytes>, delivered: map<nat, Bytes>,
    s: Replication.System, r: Replica, records: seq<Record>)
    requires Represents(offset, replicas, output, delivered, s) && Rdb.Saveable(records)
    requires r.link in s.nodes && !s.nodes[r.link].attached && r.link in output
    ensures var id := r.link;
            var bytes := ResyncBytes(s.master.replid, offset, Rdb.Serialize(records));
            var n' := Replication.AfterAttach(s.master, s.nodes[id], records, s.now);
            Represents(offset, replicas + [r], output[id := output[id] + bytes], delivered[id := output[id]],
                       s.(nodes := s.nodes[id := n']))
  {
    hide ResyncBytes;
    hide Entries;
    hide Rdb.Serialize;
    hide Rdb.Saveable;
    OneMoreEntry(replicas, r);
  }
}
