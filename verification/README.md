# mesh_lora relay core, modelled in Dafny

This project models the relay core of `mesh_lora`, a flooding mesh over a
half-duplex LoRa radio. Nodes have addresses 1 to 254, or 255 for a pure relay.
Every packet carries a 4-byte header `to, from, id, flags` and then the payload.
A node re-transmits every packet that is not only for itself. A time-windowed
duplicate check on `(to, from, id)` stops loops.

The model covers:

- **Forwarding engine** (`interface.dfy`, module `Interface`). One iteration of
  `Interface._sender_receiver` is the pure function
  `Step(node, now, rx, tx) -> Iteration(node', events)`. `now` is the clock
  reading. `rx` is what the transceiver's `receive` returned. `tx` is the outcome
  of the transceiver's `send`. `events` records the sending callbacks, the
  transmit, the inbox drop and the reception callbacks, in the order they happen.
- **Dedup cache** (`dedup.dfy`, module `Dedup`). The history of
  `(key, timestamp)` entries, the `MaxAge = 3` second window, and the duplicate
  test.
- **Framing** (`framing.dfy`, module `Framing`). `FakeTransceiver.send`'s frame
  layout, including Python's `x or 255` and `x or 0` defaulting and the
  `OverflowError` raised for values that do not fit a byte. Also the interface's
  reading of bytes 0 to 3.
- **Pub/sub** (`pubsub.dfy`, module `PubSub`). `PUBSUB_FLAG = 235`,
  `Publisher.publish`, `Subscriber.__init__`, and the subscriber's wrapper
  `inner`.
- **Simulated medium** (`radio.dfy`, module `FakeRadio`). `World` and
  `FakeTransceiver`: each transceiver has one receive slot where the last frame
  wins, and a transceiver stores frames only while it is listening.
- **Composition** (`mesh.dfy`, module `Mesh`). Interfaces run over the simulated
  medium. The round-by-round lemmas cover a published message reaching the
  subscribers of another node, and a relay's echo being suppressed.
- **Legacy relay** (`legacy.dfy`, module `Legacy`). `Messenger` from
  `mesh_lora.py`, with its own rules:
  - its dedup set never ages;
  - a relay is never "for me";
  - delivery and forwarding exclude each other;
  - the sender byte comes first in the header.

  Comparison lemmas relate these rules to those of `Interface`.

One `Packet(to, from, id, flags, payload)` datatype is used throughout. The
source itself is not consistent about packets, and the model adapts it in these
places:

- `Interface.send` pushes a 5-tuple (`mesh_lora/interface.py:92`). The
  forwarding branch pushes the raw received frame (`mesh_lora/interface.py:131`).
  The model always pushes a `Packet`. The raw-frame behaviour is modelled
  separately; see Findings.
- Reception callbacks get the packet (`mesh_lora/interface.py:135`). The
  pub/sub wrapper expects `(payload, flags)`. In the model, a
  `ReceptionCallback` event carries the packet, and the wrapper reads the payload
  and flags from it.
- `Subscriber` calls `register_reception_callback`
  (`mesh_lora/pubsub.py:48`), but the interface only defines
  `add_on_reception_callback` (`mesh_lora/interface.py:74`). The model
  registers through the latter.
- `Interface.send` calls `message.encode()`, while `publish` hands it bytes. The
  model's `Send` takes the already encoded payload bytes.

Behaviour of the code worth noting, which the model follows:

- A packet the node sends itself is **not** recorded in the dedup history. Only
  received packets are (`mesh_lora/interface.py:100-103`). So a node's own
  broadcast that echoes back from a relay is processed again.
- A node with address 255 **does** deliver broadcasts to its callbacks, because
  `to in [node, 255]` holds (`mesh_lora/interface.py:164`), although the
  module's own usage notes describe such a node as one that only forwards
  packets (`mesh_lora/interface.py:8-9, 34-35`). It also forwards every fresh
  packet.
- A pub/sub envelope that fails to decode is not silently ignored. The
  exception from `pickle.loads` is not caught (`mesh_lora/pubsub.py:56`). The
  model's `Filter` returns `Raised` in that case.
- The dedup window is inclusive: an entry exactly `MaxAge` old still matches
  (`mesh_lora/interface.py:178`).
- A frame of 1 to 3 bytes is not dropped; the header unpacking raises on it. The
  model states this as a precondition (`ReceivableFrame`).

## Model

| member | source | states |
|---|---|---|
| Framing.Parse | mesh_lora/interface.py:141-146 | a frame's bytes 0-3 read as to, from, id, flags (all bytes), the rest is the payload, 4 bytes shorter than the frame |
| Framing.Frame | mesh_lora/fake_transceiver.py:65-77 | frame succeeds iff every defaulted header value fits a byte (None/0 destination and sender become 255, None identifier/flags become 0); a frame is 4 + len(data) long and parses back to the defaulted header followed by data verbatim |
| Framing.ParseFrameOf | mesh_lora/fake_transceiver.py:72-77 | a packet with byte-sized header and non-zero destination and sender is framed successfully and parses back to itself |
| Framing.FrameOfParse | mesh_lora/fake_transceiver.py:67-68 | re-framing a received frame reproduces it iff its destination and sender bytes are non-zero; a zero destination or sender is re-emitted as 255 |
| Dedup.AlreadyReceived | mesh_lora/interface.py:171-182 | the scan answers yes iff some history entry has the packet's (to, from, id) and is at most MaxAge old at `now`; flags and payload play no part |
| Dedup.Remember | mesh_lora/interface.py:184-188 | remembering appends exactly one entry, keeps the old history as a prefix, and the packet's key is then live at that instant |
| Dedup.RememberedIsRecognised | mesh_lora/interface.py:184-188 | a remembered packet is recognised by any packet with the same key for MaxAge seconds inclusive |
| Dedup.ExpiredIsForgotten | mesh_lora/interface.py:177-179 | once every entry with the key is more than MaxAge old, the packet is new again |
| Dedup.RememberOtherKey | mesh_lora/interface.py:180-181 | remembering a packet with another key does not change the answer for a packet |
| Dedup.RecordedInExtension | mesh_lora/interface.py:176-182 | a recognised packet stays recognised when entries are appended to the history |
| Dedup.RememberKeepsSpaced | mesh_lora/interface.py:184-188 | remembering a packet that is not already received, with a clock that does not go back, keeps same-key entries more than MaxAge apart |
| Dedup.EarlierNamesakeIsStale | mesh_lora/interface.py:64-66 | in such a history, an entry with a later same-key entry is no longer consulted: at most one entry per key is live |
| Interface.Send | mesh_lora/interface.py:84-94 | send appends exactly the packet (id_to, node, id, flags, payload) with id in [0,254] to the stack; history, callbacks and address are unchanged |
| Interface.Step | mesh_lora/interface.py:96-131 | an iteration keeps address, inbox and callbacks; it appends at most one history entry, stamped now; with a non-empty stack it only pops the last packet; with an empty one it leaves at most one packet, whose key is the entry just remembered |
| Interface.StepTransmitsLast | mesh_lora/interface.py:100-103 | with a non-empty stack an iteration pops the last packet, fires every sending callback in registration order, then transmits it; it neither receives nor remembers |
| Interface.SendThenStep | mesh_lora/interface.py:94-103 | send followed by one iteration transmits exactly the sent packet and restores the node (LIFO) |
| Interface.TransmitFailureSwallowed | mesh_lora/interface.py:148-156 | the node after an iteration is the same whether the transmit succeeded or raised; the packet is not pushed back |
| Interface.NothingReceived | mesh_lora/interface.py:108-112 | with an empty stack, receiving None or empty bytes changes nothing and calls nothing |
| Interface.DuplicateDropped | mesh_lora/interface.py:114-116 | a frame whose (to, from, id) matches an entry at most 3 s old is dropped: no remembering, no callbacks, no forwarding |
| Interface.FreshIsRemembered | mesh_lora/interface.py:118-119 | a fresh frame is appended to the history exactly once as (to, from, id, now); address, inbox and callbacks stay |
| Interface.FreshDeliveredIff | mesh_lora/interface.py:121-125 | a fresh frame is delivered (inbox, then each reception callback in order) iff to is the node's address or 255; otherwise nothing is called |
| Interface.FreshForwardedIff | mesh_lora/interface.py:127-131 | a fresh frame is pushed back iff it is not for the node or is a broadcast; otherwise the stack is unchanged |
| Interface.FreshIsHandled | mesh_lora/interface.py:121-131 | every fresh frame is delivered or forwarded; one addressed to a non-relay node is delivered and not forwarded; a relay forwards every fresh frame |
| Interface.RegisteredCallbackCalledLast | mesh_lora/interface.py:133-135 | a callback registered last is called last, with the packet, and registration changes nothing else about delivery |
| Interface.SendingCallbackCalledLast | mesh_lora/interface.py:77-139 | a sending callback registered last is called last, with the popped packet, just before the transmit; nothing else about the iteration changes |
| Interface.ForwardedFrameGoesOutUnchanged | mesh_lora/interface.py:129-153 | a forwarded frame is the next one transmitted, and re-framing gives the same bytes when destination and sender are non-zero |
| Interface.StepKeepsHistorySpaced | mesh_lora/interface.py:184-188 | an iteration appends at most one history entry, keeps the old ones as a prefix, and keeps same-key entries more than MaxAge apart |
| Interface.NewNodeIsIdle | mesh_lora/interface.py:45-66 | a new interface starts with an empty, hence well-spaced, history, and an iteration hearing nothing leaves it as it is with no calls |
| Interface.EchoSuppressed | mesh_lora/interface.py:171-188 | a frame with the key of a fresh frame processed at most MaxAge earlier is dropped, whatever happened in between |
| Interface.ForwardAsWrittenNeverTransmits | mesh_lora/interface.py:148-156 | as written, a forwarded raw frame is never put on the air: it kills the worker unless it is exactly 5 bytes, and is then swallowed |
| PubSub.EnvelopeRoundTrip | mesh_lora/pubsub.py:90 | decoding the envelope of (topic, message) gives back exactly (topic, message) |
| PubSub.Publish | mesh_lora/pubsub.py:84-91 | publish pushes exactly one packet, to 255 with flags 235, whose payload is the envelope of (topic, message); nothing else changes |
| PubSub.Filter | mesh_lora/pubsub.py:53-59 | the wrapper ignores flags other than 235; with flags 235 it raises when the payload is not an envelope, and otherwise calls the user callback with the decoded message iff the decoded topic matches |
| PubSub.Subscribe | mesh_lora/pubsub.py:42-48 | constructing a subscriber registers exactly one reception callback, its wrapper, last, and changes nothing else |
| PubSub.PublishThenFilter | mesh_lora/pubsub.py:50-91 | the wrapper handed a published packet calls back with the message iff its topic is the published topic, and ignores it otherwise |
| FakeRadio.Spawn | mesh_lora/fake_transceiver.py:11-13 | spawning appends the transceiver after the existing ones |
| FakeRadio.OnReception | mesh_lora/fake_transceiver.py:43-46 | a listening transceiver keeps the offered frame, overwriting its slot; a deaf one is unchanged |
| FakeRadio.OnEmission | mesh_lora/fake_transceiver.py:15-18 | every transceiver of the world is offered the frame |
| FakeRadio.Send | mesh_lora/fake_transceiver.py:65-81 | send emits iff the defaulted header fits in bytes; the world keeps its size and the sender ends up listening exactly when keep_listening |
| FakeRadio.Receive | mesh_lora/fake_transceiver.py:60-63 | receive returns the slot's frame (None on timeout), empties the slot, and leaves listening equal to keep_listening |
| FakeRadio.SendDelivers | mesh_lora/fake_transceiver.py:65-81 | a failed frame changes nothing; otherwise every other listening transceiver holds exactly the frame, deaf ones are unchanged, and the sender does not catch its own frame and ends listening iff keep_listening |
| FakeRadio.EmitThenReceive | mesh_lora/fake_transceiver.py:43-63 | a frame emitted to a listening transceiver is read back unchanged, and a second read gives None |
| FakeRadio.LastFrameWins | mesh_lora/fake_transceiver.py:43-46 | of two emissions, a listening transceiver keeps only the second |
| FakeRadio.NewTransceiverIsDeaf | mesh_lora/fake_transceiver.py:38-46 | a transceiver just spawned is not listening, so it catches nothing of an emission until its first receive |
| Legacy.ReceiveFrame | mesh_lora.py:66-78 | None passes through; otherwise byte 0 is the sender, byte 1 the destination, then identifier, flags and message |
| Legacy.Step | mesh_lora.py:36-64 | an iteration keeps the address and only grows the seen set; it ends the worker only when a pop was transmitted with an error other than RuntimeError; it files at most one packet in the inbox and, when it does, leaves the stack alone |
| Legacy.HeaderRoundTrip | mesh_lora.py:80-86 | the tx_header written by _send_packet is read back by _receive as the same packet |
| Legacy.ReframeReceived | mesh_lora.py:71-86 | re-emitting a received packet reproduces its frame byte for byte |
| Legacy.SendFirst | mesh_lora.py:38-89 | sending has priority, pops the last packet, emits (from, to, id, flags) and the message; only a RuntimeError is survived, anything else ends the worker |
| Legacy.SeenIsDropped | mesh_lora.py:48-54 | nothing received, or a packet equal in all five fields to one seen before at any time, leaves the messenger unchanged |
| Legacy.FreshGoesOneWay | mesh_lora.py:56-64 | a fresh packet is added to the seen set and goes to exactly one of inbox (iff addressed to this non-relay node) and forwarding stack |
| Legacy.ForMeComparison | mesh_lora.py:94-99 | legacy "for me" implies the interface's; they differ exactly on packets addressed to 255 |
| Legacy.ForwardComparison | mesh_lora.py:59-64 | both revisions forward the same packets; legacy never both delivers and forwards, the interface does for broadcasts |
| Legacy.HeaderOrderSwapped | mesh_lora.py:82-86 | for a byte-sized packet with non-zero destination and sender, the legacy tx_header is the interface's frame header with bytes 0 and 1 exchanged |
| Legacy.ReceiveOrderSwapped | mesh_lora.py:71-78 | the legacy reading of any frame of at least 4 bytes is the interface's reading with destination and sender exchanged |
| Legacy.NewMessengerTakesFirstFrame | mesh_lora.py:20-64 | a new messenger remembers the first frame it hears and files it in its inbox iff it is for it, on its stack otherwise |
| Mesh.MeshStep | mesh_lora/interface.py:96-153 | a round of one node over the simulated medium keeps every unread frame at least 4 bytes long and leaves the other nodes unchanged |
| Mesh.EmissionReachesListeners | mesh_lora/fake_transceiver.py:65-81 | a node emitting a byte-sized packet fills the slot of every other listening transceiver with its frame and goes deaf itself |
| Mesh.ReceiveRound | mesh_lora/interface.py:105-108 | an idle node's round is its interface's iteration on its transceiver's slot |
| Mesh.PublishedFrameArrives | mesh_lora/pubsub.py:84-91 | after publish and one round of the publisher, a listening node holds a frame reading back as (255, sender, id, 235, envelope) |
| Mesh.PublishReachesSubscribers | mesh_lora/pubsub.py:42-91 | publish, then one round each of the publisher and a listening subscriber node: each reception callback fires once with the packet, a subscriber's user callback gets the message iff topics match, and the packet is forwarded |
| Mesh.BroadcastRound | mesh_lora/interface.py:105-131 | an idle node whose slot holds a fresh broadcast delivers it locally (inbox, then every reception callback) and pushes it back on its stack |
| Mesh.FreshBroadcastHandled | mesh_lora/interface.py:118-131 | an interface iteration on a fresh broadcast frame delivers the packet locally and leaves exactly that packet on the stack |
| Mesh.RelayEchoDropped | mesh_lora/interface.py:114-116 | a relay's re-emission of a frame a listening node processed at most MaxAge earlier is dropped by that node, with no calls and no change |

## Left out

- Threads, and the unsynchronised stack shared by `send` and the worker. The model takes one sequential iteration at a time. Interleavings inside an iteration are not modelled.
- `time.time()` is the parameter `now`, one reading per iteration. The source reads the clock once per history entry and again when remembering. Floating-point timestamps are modelled as reals.
- `random.randint(0, 254)` is the parameter `id`, constrained to [0, 254].
- The inbox JSON file (`mesh_lora/interface.py:68-72, 190-209`) becomes the `InboxDrop` event. File contents and I/O errors are not modelled.
- Callbacks are opaque handles recorded in the event trace. Their own side effects, such as a callback calling `send`, are not modelled.
- `pickle.dumps` and `pickle.loads` are replaced by a self-delimiting envelope encoding with a proved inverse. Pickle's format and its behaviour on non-string objects are not modelled.
- The polling and sleeping loop of `FakeTransceiver.receive` is left out. A timeout is a `None` result. Frames that arrive during the wait are not modelled.
- `_sender_receiver`'s endless loop is modelled one iteration at a time. `start`, and thread death after an uncaught exception, are modelled only as the legacy `Died` outcome.
- Logging throughout, `setup_logger.py`, and `custom_log_setup` are left out.
- The hardware driver `RFM95.py` and the random simulator `simulated_RFM95.py` are left out. The legacy radio's behaviour is the `TxOutcome` input.
- `mesh_lora/subscriber.py` (an unfinished draft), `mesh_lora/nodes/*`, the example scripts, `main.py`, `run_simulation.py`, `setup.py` and `__init__.py` are not part of this model.
- Interface.Step: requires frames of 1 to 3 bytes to be absent. The source raises an uncaught `ValueError` on them and the model does not represent that crash.
- Interface.Step: `InboxDrop` stands for appending the parsed 5-tuple to the inbox. As written, `drop_in_inbox` is handed the raw received frame (`mesh_lora/interface.py:124`) and unpacks it into five names (line 197). That raises `ValueError` unless the frame is exactly 5 bytes, and for a 5-byte frame `message.decode()` (line 203) raises on an int. So on a node with an inbox every delivery ends the worker before any reception callback runs. The model delivers instead, as for the forwarding path in Findings.
- Legacy.Step: requires every received frame to have at least 4 bytes. The legacy `_receive` unpacks `packet[:4]` and raises on anything shorter, including empty bytes; that crash is not represented.
- PubSub.Filter: a `Raised` result is not propagated into the interface's iteration. There it would end the worker thread.

## Findings

| source | as written | input that shows it | evidently intended | confidence | as-written member | corrected member |
|---|---|---|---|---|---|---|
| mesh_lora/interface.py:131 | the forwarding branch pushes the raw received frame, and `_send_packet` unpacks a popped item into five names outside its `try` (line 150) | node 3 receives the frame `02 01 07 00 68 69` (from 1 to 2, "hi"); its next iteration raises `ValueError` and the worker thread dies; a 5-byte frame is instead swallowed by the transceiver's `TypeError` | push the parsed 5-tuple, so that the next iteration re-emits the same frame | high; not executed | Interface.ForwardAsWrittenNeverTransmits | Interface.ForwardedFrameGoesOutUnchanged |
