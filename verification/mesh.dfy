/** Interfaces running over the simulated medium: node `i` drives
    transceiver `i` of the world, and one round is one loop iteration of one
    node. Rounds of different nodes are taken one at a time; the threads of
    the source are not modelled. */
module Mesh {
  import opened Base
  import opened Packets
  import opened Framing
  import opened Dedup
  import Interface
  import FakeRadio
  import PubSub

  datatype Mesh = Mesh(nodes: seq<Interface.Node>, world: FakeRadio.World)

  /** The result of one round: the mesh after it and the calls the stepping
      node made. */
  datatype Round = Round(mesh: Mesh, events: seq<Interface.Event>)

  /** One transceiver per node, and every unread frame in the medium carries
      a full header, so the interfaces never see a short frame. */
  ghost predicate Valid(m: Mesh) {
    && |m.nodes| == |m.world.radios|
    && forall i :: 0 <= i < |m.world.radios| && m.world.radios[i].lastPacket.Some? ==>
         |m.world.radios[i].lastPacket.value| >= 4
  }

  /** One iteration of node `i`'s loop against its transceiver: popping and
      emitting through `FakeTransceiver.send` (a header value that does not
      fit a byte raises, which the interface swallows), or reading the slot
      through `FakeTransceiver.receive` and processing what was there. */
  function MeshStep(m: Mesh, i: nat, now: real): (r: Round)
    requires Valid(m) && i < |m.nodes|
    ensures Valid(r.mesh)
    ensures |r.mesh.nodes| == |m.nodes|
    ensures forall j :: 0 <= j < |m.nodes| && j != i ==> r.mesh.nodes[j] == m.nodes[j]
  {
    var n := m.nodes[i];
    if n.queue != [] then
      var p := Last(n.queue);
      var sent := FakeRadio.Send(m.world, i, p.payload, false, Some(p.to), Some(p.from), Some(p.id), Some(p.flags));
      var tx := if sent.Ok? then Sent else OtherError;
      var it := Interface.Step(n, now, None, tx);
      FakeRadio.SendDelivers(m.world, i, p.payload, false, Some(p.to), Some(p.from), Some(p.id), Some(p.flags));
      Round(Mesh(m.nodes[i := it.node], if sent.Ok? then sent.value else m.world), it.events)
    else
      var got := FakeRadio.Receive(m.world.radios[i], true);
      var it := Interface.Step(n, now, got.0, Sent);
      Round(Mesh(m.nodes[i := it.node], FakeRadio.World(m.world.radios[i := got.1])), it.events)
  }

  /** A node with a packet on its stack whose header fits in bytes puts its
      frame in the slot of every other listening transceiver, and its own
      transceiver goes deaf until its next receive. */
  lemma EmissionReachesListeners(m: Mesh, a: nat, now: real)
    requires Valid(m) && a < |m.nodes| && m.nodes[a].queue != []
    requires var p := Last(m.nodes[a].queue);
      IsByte(p.to) && IsByte(p.from) && IsByte(p.id) && IsByte(p.flags)
    ensures var r := MeshStep(m, a, now);
      var p := Last(m.nodes[a].queue);
      && !r.mesh.world.radios[a].listening
      && Last(r.events) == Interface.Transmit(p, Sent)
      && forall j :: 0 <= j < |m.nodes| && j != a && m.world.radios[j].listening ==>
           r.mesh.world.radios[j] == FakeRadio.Transceiver(true, Some(FrameOf(p).value))
  {
    var p := Last(m.nodes[a].queue);
    FakeRadio.SendDelivers(m.world, a, p.payload, false, Some(p.to), Some(p.from), Some(p.id), Some(p.flags));
  }

  /** A round of a node with nothing queued is its interface's iteration on
      whatever its transceiver's slot held. */
  lemma ReceiveRound(m: Mesh, b: nat, now: real)
    requires Valid(m) && b < |m.nodes| && m.nodes[b].queue == []
    ensures var it := Interface.Step(m.nodes[b], now, m.world.radios[b].lastPacket, Sent);
      var r := MeshStep(m, b, now);
      r.events == it.events && r.mesh.nodes[b] == it.node
  {
  }

  /** `Publisher.publish` called on node `a`'s interface. */
  function PublishOn(m: Mesh, a: nat, topic: string, message: string, id: int): (r: Mesh)
    requires Valid(m) && a < |m.nodes| && 0 <= id <= 254
    ensures Valid(r) && r.world == m.world && |r.nodes| == |m.nodes|
    ensures forall j :: 0 <= j < |m.nodes| && j != a ==> r.nodes[j] == m.nodes[j]
    ensures r.nodes[a] == PubSub.Publish(m.nodes[a], topic, message, id)
  {
    m.(nodes := m.nodes[a := PubSub.Publish(m.nodes[a], topic, message, id)])
  }

  /** After `a` publishes and takes one round, a listening node `b` holds
      the published frame, which reads back as the published packet with
      the sender defaulted, and `b` itself is untouched. */
  lemma PublishedFrameArrives(m: Mesh, a: nat, b: nat, topic: string, message: string, id: int, t: real)
    requires Valid(m) && a < |m.nodes| && b < |m.nodes| && a != b
    requires 0 <= id <= 254 && 0 <= m.nodes[a].address < 256
    requires m.world.radios[b].listening
    ensures var m1 := PublishOn(m, a, topic, message, id);
      var r1 := MeshStep(m1, a, t);
      && r1.mesh.nodes[b] == m.nodes[b]
      && r1.mesh.world.radios[b].lastPacket.Some?
      && |r1.mesh.world.radios[b].lastPacket.value| >= 4
      && Parse(r1.mesh.world.radios[b].lastPacket.value) ==
           Packet(BroadcastAddress, OrElse(Some(m.nodes[a].address), 255), id,
                  PubSub.PubsubFlag, PubSub.EncodeEnvelope(topic, message))
  {
    var m1 := PublishOn(m, a, topic, message, id);
    EmissionReachesListeners(m1, a, t);
  }

  /** Publish on node `a`, then one round of `a` and one round of a listening
      node `b` with nothing queued and no live record of the packet: `b`
      calls each of its reception callbacks once, in order, with the
      published packet; each subscriber's wrapper then calls its user
      callback with the message exactly when it listens on the published
      topic; and `b` forwards the packet, as it is a broadcast. */
  lemma PublishReachesSubscribers(m: Mesh, a: nat, b: nat, topic: string, message: string,
                                  id: int, t: real, t': real, subTopic: string,
                                  published: Mesh, r1: Round, r2: Round)
    requires Valid(m) && a < |m.nodes| && b < |m.nodes| && a != b
    requires 0 <= id <= 254 && 0 <= m.nodes[a].address < 256
    requires m.world.radios[b].listening && m.nodes[b].queue == []
    requires var from := OrElse(Some(m.nodes[a].address), 255);
      !Recorded(m.nodes[b].history, Key(BroadcastAddress, from, id), t')
    requires published == PublishOn(m, a, topic, message, id)
    requires r1 == MeshStep(published, a, t)
    requires r2 == MeshStep(r1.mesh, b, t')
    ensures var nb := m.nodes[b];
      var p := Packet(BroadcastAddress, OrElse(Some(m.nodes[a].address), 255), id,
                      PubSub.PubsubFlag, PubSub.EncodeEnvelope(topic, message));
      var off := if nb.hasInbox then 1 else 0;
      && |r2.events| == off + |nb.receptionCallbacks|
      && (forall k :: 0 <= k < |nb.receptionCallbacks| ==>
            r2.events[off + k] == Interface.ReceptionCallback(nb.receptionCallbacks[k], p))
      && PubSub.Filter(subTopic, p.payload, p.flags) ==
           (if subTopic == topic then PubSub.Invoked(message) else PubSub.Ignored)
      && r2.mesh.nodes[b].queue == [p]
  {
    var p := Packet(BroadcastAddress, OrElse(Some(m.nodes[a].address), 255), id,
                    PubSub.PubsubFlag, PubSub.EncodeEnvelope(topic, message));
    assert r2.events == Interface.Deliveries(m.nodes[b], p) && r2.mesh.nodes[b].queue == [p] by {
      PublishedFrameArrives(m, a, b, topic, message, id, t);
      BroadcastRound(r1.mesh, b, t', p);
    }
    assert PubSub.Filter(subTopic, p.payload, p.flags) ==
             (if subTopic == topic then PubSub.Invoked(message) else PubSub.Ignored) by {
      PubSub.PublishThenFilter(m.nodes[a], topic, message, id, subTopic);
    }
    CallsEveryCallback(r2.events, m.nodes[b], p);
  }

  /** A round of a node with nothing queued whose slot holds a fresh
      broadcast: the packet is delivered locally and forwarded. */
  lemma BroadcastRound(m: Mesh, b: nat, now: real, p: Packet)
    requires Valid(m) && b < |m.nodes| && m.nodes[b].queue == []
    requires var slot := m.world.radios[b].lastPacket;
      slot.Some? && |slot.value| >= 4 && Parse(slot.value) == p
    requires p.to == BroadcastAddress && !Recorded(m.nodes[b].history, KeyOf(p), now)
    ensures var r := MeshStep(m, b, now);
      r.events == Interface.Deliveries(m.nodes[b], p) && r.mesh.nodes[b].queue == [p]
  {
    var frame := m.world.radios[b].lastPacket.value;
    var it := Interface.Step(m.nodes[b], now, Some(frame), Sent);
    FreshBroadcastHandled(m.nodes[b], now, frame, p, it);
    ReceiveRound(m, b, now);
  }

  /** The interface's side of `BroadcastRound`: a fresh broadcast is
      delivered locally and pushed back on the stack. */
  lemma FreshBroadcastHandled(n: Interface.Node, now: real, frame: Bytes, p: Packet, r: Interface.Iteration)
    requires n.queue == [] && |frame| >= 4 && Parse(frame) == p
    requires p.to == BroadcastAddress && !Recorded(n.history, KeyOf(p), now)
    requires r == Interface.Step(n, now, Some(frame), Sent)
    ensures r.events == Interface.Deliveries(n, p) && r.node.queue == [p]
  {
    assert Key(frame[0], frame[1], frame[2]) == KeyOf(p);
    Interface.FreshForwardedIff(n, now, frame, Sent);
  }

  /** Local delivery, position by position: the inbox first when there is
      one, then every reception callback in registration order. */
  lemma CallsEveryCallback(es: seq<Interface.Event>, n: Interface.Node, p: Packet)
    requires es == Interface.Deliveries(n, p)
    ensures var off := if n.hasInbox then 1 else 0;
      && |es| == off + |n.receptionCallbacks|
      && (n.hasInbox ==> es[0] == Interface.InboxDrop(p))
      && forall k :: 0 <= k < |n.receptionCallbacks| ==>
           es[off + k] == Interface.ReceptionCallback(n.receptionCallbacks[k], p)
  {
  }

  /** The echo of a packet: node `c` re-emits a packet it parsed from a frame
      with non-zero destination and sender, and a listening node `b` that
      processed the same frame at most `MaxAge` seconds earlier drops the
      echo without calls and without changing state. */
  lemma RelayEchoDropped(m: Mesh, c: nat, b: nat, frame: Bytes, t: real, t': real)
    requires Valid(m) && c < |m.nodes| && b < |m.nodes| && c != b
    requires |frame| >= 4 && frame[0] != 0 && frame[1] != 0
    requires m.nodes[c].queue != [] && Last(m.nodes[c].queue) == Parse(frame)
    requires m.world.radios[b].listening && m.nodes[b].queue == []
    requires exists k ::
      0 <= k < |m.nodes[b].history| && m.nodes[b].history[k] == Entry(Key(frame[0], frame[1], frame[2]), t)
    requires t' - t <= MaxAge
    ensures var r1 := MeshStep(m, c, t');
      var r2 := MeshStep(r1.mesh, b, t');
      r2.events == [] && r2.mesh.nodes[b] == m.nodes[b]
  {
    FrameOfParse(frame);
    EmissionReachesListeners(m, c, t');
    var r1 := MeshStep(m, c, t');
    assert r1.mesh.world.radios[b].lastPacket == Some(frame);
    assert r1.mesh.nodes[b] == m.nodes[b];
    Interface.DuplicateDropped(m.nodes[b], t', frame, Sent);
  }
}
