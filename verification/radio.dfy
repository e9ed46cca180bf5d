/** The simulated radio medium: a world of transceivers, each with a single
    receive slot, where every emission is offered to every transceiver. */
module FakeRadio {
  import opened Base
  import opened Framing

  /** A simulated transceiver: whether it is listening, and the last frame it
      caught and nobody has read yet. */
  datatype Transceiver = Transceiver(listening: bool, lastPacket: Option<Bytes>)

  /** The medium: its transceivers in spawn order. A transceiver's index is
      its identity; being in the list stands for its `world` attribute. */
  datatype World = World(radios: seq<Transceiver>)

  function NewTransceiver(): Transceiver {
    Transceiver(false, None)
  }

  /** `World.spawn_transceiver`: joins the transceiver to the world, last. */
  function Spawn(w: World, t: Transceiver): (r: World)
    ensures |r.radios| == |w.radios| + 1
    ensures r.radios[..|w.radios|] == w.radios && r.radios[|w.radios|] == t
  {
    World(w.radios + [t])
  }

  /** `_on_reception`: a listening transceiver keeps the frame, overwriting
      any unread one; a deaf one ignores it. */
  function OnReception(t: Transceiver, frame: Bytes): (r: Transceiver)
    ensures r.listening == t.listening
    ensures r.lastPacket == if t.listening then Some(frame) else t.lastPacket
  {
    if t.listening then t.(lastPacket := Some(frame)) else t
  }

  /** `on_emmision`: every transceiver of the world, in spawn order, is
      offered the frame. */
  function OnEmission(w: World, frame: Bytes): (r: World)
    ensures |r.radios| == |w.radios|
    ensures forall i :: 0 <= i < |w.radios| ==> r.radios[i] == OnReception(w.radios[i], frame)
  {
    World(seq(|w.radios|, i requires 0 <= i < |w.radios| => OnReception(w.radios[i], frame)))
  }

  /** `FakeTransceiver.send` by transceiver `me`: builds the frame (failing
      with nothing changed when a header value does not fit a byte), stops
      listening, emits the frame to the world, then listens again exactly
      when `keepListening`. */
  function Send(w: World, me: nat, data: Bytes, keepListening: bool,
                destination: Option<int>, node: Option<int>,
                identifier: Option<int>, flags: Option<int>): (r: Result<World, FrameError>)
    requires me < |w.radios|
    ensures r.Ok? <==> Frame(data, destination, node, identifier, flags).Ok?
    ensures r.Ok? ==> |r.value.radios| == |w.radios| && r.value.radios[me].listening == keepListening
  {
    match Frame(data, destination, node, identifier, flags)
    case Err(e) => Err(e)
    case Ok(frame) =>
      var deaf := World(w.radios[me := w.radios[me].(listening := false)]);
      var heard := OnEmission(deaf, frame);
      Ok(World(heard.radios[me := heard.radios[me].(listening := keepListening)]))
  }

  /** `FakeTransceiver.receive` without its polling loop: hands out a copy of
      the slot (`None` standing for a timeout), empties the slot, and leaves
      the transceiver listening exactly when `keepListening`. */
  function Receive(t: Transceiver, keepListening: bool): (r: (Option<Bytes>, Transceiver))
    ensures r.0 == t.lastPacket
    ensures r.1 == Transceiver(keepListening, None)
  {
    (t.lastPacket, Transceiver(keepListening, None))
  }

  /** One emission: every other transceiver that was listening now holds
      exactly this frame, the others are unchanged; the sender never catches
      its own frame, and ends up listening exactly when `keepListening`. A
      failed frame changes nothing. */
  lemma SendDelivers(w: World, me: nat, data: Bytes, keepListening: bool,
                     destination: Option<int>, node: Option<int>,
                     identifier: Option<int>, flags: Option<int>)
    requires me < |w.radios|
    ensures var r := Send(w, me, data, keepListening, destination, node, identifier, flags);
      var f := Frame(data, destination, node, identifier, flags);
      && (f.Err? ==> r == Err(f.error))
      && (f.Ok? ==>
            && r.Ok? && |r.value.radios| == |w.radios|
            && r.value.radios[me] == Transceiver(keepListening, w.radios[me].lastPacket)
            && forall i :: 0 <= i < |w.radios| && i != me ==>
                 r.value.radios[i] ==
                   (if w.radios[i].listening then w.radios[i].(lastPacket := Some(f.value)) else w.radios[i]))
  {
  }

  /** A frame emitted to the world and then read by a listening transceiver
      comes out exactly as it went in; reading twice gives `None` the second
      time. */
  lemma EmitThenReceive(w: World, i: nat, frame: Bytes, keepListening: bool)
    requires i < |w.radios| && w.radios[i].listening
    ensures var got := Receive(OnEmission(w, frame).radios[i], keepListening);
      && got.0 == Some(frame)
      && Receive(got.1, keepListening).0 == None
  {
  }

  /** A transceiver just joined to the world is deaf: it misses every
      emission until its first `receive` makes it listen. */
  lemma NewTransceiverIsDeaf(w: World, frame: Bytes)
    ensures var r := OnEmission(Spawn(w, NewTransceiver()), frame);
      r.radios[|w.radios|].lastPacket == None
  {
  }

  /** The last frame wins: of two emissions in a row, a listening
      transceiver holds only the second. */
  lemma LastFrameWins(w: World, i: nat, first: Bytes, second: Bytes)
    requires i < |w.radios| && w.radios[i].listening
    ensures OnEmission(OnEmission(w, first), second).radios[i].lastPacket == Some(second)
  {
  }
}
