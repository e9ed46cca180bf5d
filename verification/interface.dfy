/** The forwarding engine of a mesh node: one iteration of the interface's
    send/receive loop as a pure step from a node state, the current time and
    what the radio did, to the next node state and the calls it made. */
module Interface {
  import opened Base
  import opened Packets
  import opened Framing
  import opened Dedup

  /** The state one interface owns: its address in the network (1 to 254, or
      255 for a relay), whether it keeps an inbox file, the stack of packets
      waiting to go out, the dedup history, and both callback lists in
      registration order. */
  datatype Node = Node(
    address: int,
    hasInbox: bool,
    queue: seq<Packet>,
    history: History,
    receptionCallbacks: seq<Handle>,
    sendingCallbacks: seq<Handle>)

  /** The observable calls one iteration makes, in order. `InboxDrop` stands
      for appending the packet to the inbox file. */
  datatype Event =
    | SendingCallback(handle: Handle, packet: Packet)
    | Transmit(packet: Packet, outcome: TxOutcome)
    | InboxDrop(packet: Packet)
    | ReceptionCallback(handle: Handle, packet: Packet)

  /** The node after one iteration and the calls it made. */
  datatype Iteration = Iteration(node: Node, events: seq<Event>)

  /** A freshly constructed interface: nothing queued, nothing remembered,
      no callbacks. */
  function NewNode(address: int, hasInbox: bool): Node {
    Node(address, hasInbox, [], [], [], [])
  }

  function AddReceptionCallback(n: Node, h: Handle): Node {
    n.(receptionCallbacks := n.receptionCallbacks + [h])
  }

  function AddSendingCallback(n: Node, h: Handle): Node {
    n.(sendingCallbacks := n.sendingCallbacks + [h])
  }

  /** `send`: pushes a packet from this node onto the stack. The identifier
      is the source's `random.randint(0, 254)`, passed in. The payload is the
      already encoded message: the source encodes a `str` here, while the
      pub/sub layer hands it bytes; this model takes bytes from both. */
  function Send(n: Node, payload: Bytes, idTo: int, flags: int, id: int): (r: Node)
    requires 0 <= id <= 254
    ensures r.queue == n.queue + [Packet(idTo, n.address, id, flags, payload)]
    ensures r.history == n.history
    ensures r.receptionCallbacks == n.receptionCallbacks && r.sendingCallbacks == n.sendingCallbacks
    ensures r.address == n.address && r.hasInbox == n.hasInbox
  {
    n.(queue := n.queue + [Packet(idTo, n.address, id, flags, payload)])
  }

  /** A packet is for this node when it is addressed to it or to everyone. */
  predicate IsForMe(address: int, p: Packet) {
    p.to == address || p.to == BroadcastAddress
  }

  predicate IsBroadcast(p: Packet) {
    p.to == BroadcastAddress
  }

  /** The forwarding rule: not for me, or for everyone. */
  predicate MustForward(address: int, p: Packet) {
    !IsForMe(address, p) || IsBroadcast(p)
  }

  function SendingCalls(hs: seq<Handle>, p: Packet): (es: seq<Event>) {
    seq(|hs|, i requires 0 <= i < |hs| => SendingCallback(hs[i], p))
  }

  function ReceptionCalls(hs: seq<Handle>, p: Packet): (es: seq<Event>) {
    seq(|hs|, i requires 0 <= i < |hs| => ReceptionCallback(hs[i], p))
  }

  /** Local delivery: the inbox file first when there is one, then every
      reception callback in registration order. `InboxDrop` is the append of
      the parsed packet; the source hands `drop_in_inbox` the raw frame,
      which it cannot unpack (see `ForwardAsWritten` for the same mix-up on
      the forwarding path). */
  function Deliveries(n: Node, p: Packet): seq<Event> {
    (if n.hasInbox then [InboxDrop(p)] else []) + ReceptionCalls(n.receptionCallbacks, p)
  }

  /** Python truthiness of what `_receive` returned: `None` and `b''` are
      both nothing. */
  predicate GotFrame(rx: Option<Bytes>) {
    rx.Some? && rx.value != []
  }

  /** The source unpacks the first four bytes of anything it received, so a
      frame of one to three bytes would end the loop with an exception. */
  predicate ReceivableFrame(rx: Option<Bytes>) {
    GotFrame(rx) ==> |rx.value| >= 4
  }

  /** The receive branch once a frame is in hand: drop a duplicate, otherwise
      remember it, deliver it if it is for me, and push it back on the stack
      if it must be forwarded. The source pushes the raw frame; this model
      pushes the parsed packet (see `ForwardAsWritten`). */
  function Process(n: Node, now: real, p: Packet): Iteration {
    if AlreadyReceived(n.history, p, now) then
      Iteration(n, [])
    else
      var remembered := n.(history := Remember(n.history, p, now));
      var delivered := if IsForMe(n.address, p) then Deliveries(n, p) else [];
      var next := if MustForward(n.address, p)
                  then remembered.(queue := remembered.queue + [p])
                  else remembered;
      Iteration(next, delivered)
  }

  /** One iteration of `_sender_receiver`. With something on the stack it pops
      the most recent packet, runs the sending callbacks and hands the packet
      to the transceiver, whose outcome `tx` is logged and otherwise ignored;
      `rx` is not looked at. With an empty stack it processes what the
      transceiver's `receive` returned in `rx`; `tx` is not looked at. */
  function Step(n: Node, now: real, rx: Option<Bytes>, tx: TxOutcome): (r: Iteration)
    requires ReceivableFrame(rx)
    ensures r.node.address == n.address && r.node.hasInbox == n.hasInbox
    ensures r.node.receptionCallbacks == n.receptionCallbacks && r.node.sendingCallbacks == n.sendingCallbacks
    ensures |n.history| <= |r.node.history| <= |n.history| + 1 && r.node.history[..|n.history|] == n.history
    ensures n.queue != [] ==> r.node.queue == n.queue[..|n.queue| - 1] && r.node.history == n.history
    ensures n.queue == [] ==> |r.node.queue| <= 1
    ensures n.queue == [] && (r.node.queue != [] || r.events != []) ==>
      |r.node.history| == |n.history| + 1 && Last(r.node.history).at == now
    ensures n.queue == [] && r.node.queue != [] ==> KeyOf(r.node.queue[0]) == Last(r.node.history).key
  {
    if n.queue != [] then
      var p := Last(n.queue);
      Iteration(n.(queue := DropLast(n.queue)), SendingCalls(n.sendingCallbacks, p) + [Transmit(p, tx)])
    else if !GotFrame(rx) then
      Iteration(n, [])
    else
      Process(n, now, Parse(rx.value))
  }

  // ---------------------------------------------------------------------
  // Sending branch

  /** With a non-empty stack an iteration pops the LAST packet, calls every
      sending callback with it in registration order, then transmits it; it
      neither receives nor remembers anything. */
  lemma StepTransmitsLast(n: Node, now: real, rx: Option<Bytes>, tx: TxOutcome)
    requires ReceivableFrame(rx)
    requires n.queue != []
    ensures var r := Step(n, now, rx, tx);
      && r.node.queue == n.queue[..|n.queue| - 1]
      && r.node == n.(queue := r.node.queue)
      && |r.events| == |n.sendingCallbacks| + 1
      && (forall k :: 0 <= k < |n.sendingCallbacks| ==>
            r.events[k] == SendingCallback(n.sendingCallbacks[k], n.queue[|n.queue| - 1]))
      && r.events[|n.sendingCallbacks|] == Transmit(n.queue[|n.queue| - 1], tx)
      && r == Step(n, now, None, tx)
  {
  }

  /** `send` followed by one iteration puts exactly that packet on the air
      and leaves the node as it was before `send`: the stack is LIFO. */
  lemma SendThenStep(n: Node, payload: Bytes, idTo: int, flags: int, id: int,
                     now: real, rx: Option<Bytes>, tx: TxOutcome)
    requires 0 <= id <= 254
    requires ReceivableFrame(rx)
    ensures var r := Step(Send(n, payload, idTo, flags, id), now, rx, tx);
      && r.node == n
      && Last(r.events) == Transmit(Packet(idTo, n.address, id, flags, payload), tx)
  {
    var s := Send(n, payload, idTo, flags, id);
    assert DropLast(s.queue) == n.queue;
  }

  /** A failed transmit is swallowed: the node after the iteration is the
      same whatever the transceiver did, and the packet is not pushed back. */
  lemma TransmitFailureSwallowed(n: Node, now: real, rx: Option<Bytes>, tx: TxOutcome, tx': TxOutcome)
    requires ReceivableFrame(rx)
    ensures Step(n, now, rx, tx).node == Step(n, now, rx, tx').node
    ensures n.queue != [] ==> |Step(n, now, rx, tx).node.queue| == |n.queue| - 1
  {
  }

  // ---------------------------------------------------------------------
  // Receiving branch

  /** With an empty stack and nothing received (`None` or `b''`), an
      iteration changes nothing and calls nothing. */
  lemma NothingReceived(n: Node, now: real, rx: Option<Bytes>, tx: TxOutcome)
    requires n.queue == []
    requires rx == None || rx == Some([])
    ensures Step(n, now, rx, tx) == Iteration(n, [])
  {
  }

  /** A duplicate, that is a frame whose (to, from, id) matches a live
      history entry whatever its flags and payload, is dropped without a
      trace: no remembering, no callbacks, no forwarding. */
  lemma DuplicateDropped(n: Node, now: real, frame: Bytes, tx: TxOutcome)
    requires n.queue == [] && |frame| >= 4
    requires exists i :: 0 <= i < |n.history| && n.history[i].key == Key(frame[0], frame[1], frame[2])
                                             && now - n.history[i].at <= MaxAge
    ensures Step(n, now, Some(frame), tx) == Iteration(n, [])
  {
    assert Recorded(n.history, KeyOf(Parse(frame)), now);
  }

  /** A fresh frame is remembered exactly once, as (to, from, id, now),
      whatever else happens to it; address, inbox and callbacks stay. */
  lemma FreshIsRemembered(n: Node, now: real, frame: Bytes, tx: TxOutcome)
    requires n.queue == [] && |frame| >= 4
    requires !Recorded(n.history, Key(frame[0], frame[1], frame[2]), now)
    ensures var r := Step(n, now, Some(frame), tx);
      && r.node.history == n.history + [Entry(Key(frame[0], frame[1], frame[2]), now)]
      && r.node.address == n.address && r.node.hasInbox == n.hasInbox
      && r.node.receptionCallbacks == n.receptionCallbacks
      && r.node.sendingCallbacks == n.sendingCallbacks
  {
  }

  /** A fresh frame is delivered (inbox, then every reception callback in
      registration order) exactly when it is addressed to this node or to
      everyone; a relay (address 255) therefore still delivers broadcasts. */
  lemma FreshDeliveredIff(n: Node, now: real, frame: Bytes, tx: TxOutcome)
    requires n.queue == [] && |frame| >= 4
    requires !Recorded(n.history, Key(frame[0], frame[1], frame[2]), now)
    ensures var r := Step(n, now, Some(frame), tx);
      var off := if n.hasInbox then 1 else 0;
      && (frame[0] == n.address || frame[0] == 255 ==>
            && |r.events| == off + |n.receptionCallbacks|
            && (n.hasInbox ==> r.events[0] == InboxDrop(Parse(frame)))
            && forall k :: 0 <= k < |n.receptionCallbacks| ==>
                 r.events[off + k] == ReceptionCallback(n.receptionCallbacks[k], Parse(frame)))
      && (frame[0] != n.address && frame[0] != 255 ==> r.events == [])
  {
  }

  /** A fresh frame is pushed back on the stack, as the packet it carries,
      exactly when it is not for this node or is a broadcast; otherwise the
      stack stays as it was. */
  lemma FreshForwardedIff(n: Node, now: real, frame: Bytes, tx: TxOutcome)
    requires n.queue == [] && |frame| >= 4
    requires !Recorded(n.history, Key(frame[0], frame[1], frame[2]), now)
    ensures var r := Step(n, now, Some(frame), tx);
      && (frame[0] != n.address || frame[0] == 255 ==> r.node.queue == [Parse(frame)])
      && (frame[0] == n.address && frame[0] != 255 ==> r.node.queue == [])
  {
  }

  /** Every fresh frame is delivered, forwarded or both; one addressed to this
      node (when the node is not a relay) is delivered and not forwarded; on a
      relay every fresh frame is forwarded. */
  lemma FreshIsHandled(n: Node, now: real, frame: Bytes, tx: TxOutcome)
    requires n.queue == [] && |frame| >= 4
    requires !Recorded(n.history, Key(frame[0], frame[1], frame[2]), now)
    ensures var r := Step(n, now, Some(frame), tx);
      && (r.events == Deliveries(n, Parse(frame)) || r.node.queue == [Parse(frame)])
      && (n.address != 255 && frame[0] == n.address ==>
            r.events == Deliveries(n, Parse(frame)) && r.node.queue == [])
      && (n.address == 255 ==> r.node.queue == [Parse(frame)])
  {
  }

  /** Callbacks run in registration order: the one registered last is
      called last for every fresh packet delivered here, and registering a
      callback changes nothing else about what an iteration does. */
  lemma RegisteredCallbackCalledLast(n: Node, h: Handle, now: real, frame: Bytes, tx: TxOutcome)
    requires n.queue == [] && |frame| >= 4 && (frame[0] == n.address || frame[0] == 255)
    requires !Recorded(n.history, Key(frame[0], frame[1], frame[2]), now)
    ensures var before := Step(n, now, Some(frame), tx);
      var after := Step(AddReceptionCallback(n, h), now, Some(frame), tx);
      && after.events == before.events + [ReceptionCallback(h, Parse(frame))]
      && after.node == before.node.(receptionCallbacks := before.node.receptionCallbacks + [h])
  {
    var p := Parse(frame);
    assert ReceptionCalls(n.receptionCallbacks + [h], p) == ReceptionCalls(n.receptionCallbacks, p) + [ReceptionCallback(h, p)];
  }

  /** Symmetrically for sending: a callback registered last is called last,
      just before the transmit, with the popped packet; nothing else about the
      iteration changes. */
  lemma SendingCallbackCalledLast(n: Node, h: Handle, now: real, rx: Option<Bytes>, tx: TxOutcome)
    requires ReceivableFrame(rx)
    requires n.queue != []
    ensures var p := Last(n.queue);
      var before := Step(n, now, rx, tx);
      var after := Step(AddSendingCallback(n, h), now, rx, tx);
      && after.events == DropLast(before.events) + [SendingCallback(h, p), Transmit(p, tx)]
      && after.node == before.node.(sendingCallbacks := before.node.sendingCallbacks + [h])
  {
    var p := Last(n.queue);
    assert SendingCalls(n.sendingCallbacks + [h], p) == SendingCalls(n.sendingCallbacks, p) + [SendingCallback(h, p)];
  }

  /** A frame forwarded by an iteration is the next one transmitted, and it
      goes out as the same bytes it came in as when its destination and
      sender bytes are non-zero. */
  lemma ForwardedFrameGoesOutUnchanged(n: Node, now: real, frame: Bytes, tx: TxOutcome,
                                       later: real, rx: Option<Bytes>, tx': TxOutcome)
    requires n.queue == [] && |frame| >= 4 && frame[0] != 0 && frame[1] != 0
    requires !Recorded(n.history, Key(frame[0], frame[1], frame[2]), now)
    requires frame[0] != n.address || frame[0] == 255
    requires ReceivableFrame(rx)
    ensures var r := Step(n, now, Some(frame), tx);
      var r' := Step(r.node, later, rx, tx');
      && Last(r'.events) == Transmit(Parse(frame), tx')
      && FrameOf(Parse(frame)) == Ok(frame)
  {
    FrameOfParse(frame);
  }

  // ---------------------------------------------------------------------
  // Dedup history across iterations

  /** A freshly constructed interface starts with a well-spaced history and,
      hearing nothing, stays exactly as it is. */
  lemma NewNodeIsIdle(address: int, hasInbox: bool, now: real, tx: TxOutcome)
    ensures Spaced(NewNode(address, hasInbox).history)
    ensures Step(NewNode(address, hasInbox), now, None, tx) == Iteration(NewNode(address, hasInbox), [])
  {
  }

  /** An iteration only ever appends to the history, at most one entry, and
      keeps it spaced: with a clock that never goes back, two entries with
      the same key are more than `MaxAge` apart, so at most one is live. */
  lemma StepKeepsHistorySpaced(n: Node, now: real, rx: Option<Bytes>, tx: TxOutcome)
    requires ReceivableFrame(rx)
    requires Spaced(n.history) && NotAfter(n.history, now)
    ensures var h := Step(n, now, rx, tx).node.history;
      && Spaced(h) && NotAfter(h, now)
      && |n.history| <= |h| <= |n.history| + 1
      && h[..|n.history|] == n.history
  {
    if n.queue == [] && GotFrame(rx) {
      var p := Parse(rx.value);
      if !AlreadyReceived(n.history, p, now) {
        RememberKeepsSpaced(n.history, p, now);
      }
    }
  }

  /** The echo of a packet this node has processed, coming back from a
      neighbour within `MaxAge` seconds, is dropped: whatever the node did in
      between, as long as the history only grew. */
  lemma EchoSuppressed(n: Node, t: real, frame: Bytes, tx: TxOutcome,
                       m: Node, t': real, echo: Bytes, tx': TxOutcome)
    requires n.queue == [] && |frame| >= 4
    requires !Recorded(n.history, Key(frame[0], frame[1], frame[2]), t)
    requires var h := Step(n, t, Some(frame), tx).node.history;
      |h| <= |m.history| && m.history[..|h|] == h
    requires m.queue == [] && |echo| >= 4 && echo[..3] == frame[..3]
    requires t' - t <= MaxAge
    ensures Step(m, t', Some(echo), tx') == Iteration(m, [])
  {
    var h := Step(n, t, Some(frame), tx).node.history;
    var p := Parse(frame);
    assert echo[0] == frame[0] && echo[1] == frame[1] && echo[2] == frame[2];
    RememberedIsRecognised(n.history, p, t, Parse(echo), t');
    assert m.history == h + m.history[|h|..];
    RecordedInExtension(h, m.history[|h|..], Parse(echo), t');
  }

  // ---------------------------------------------------------------------
  // The forwarding branch as written

  /** What the source's stack really holds: `send` pushes a 5-tuple, while the
      forwarding branch pushes the raw frame `receive` returned. */
  datatype StackItem = Tuple(packet: Packet) | RawFrame(frame: Bytes)

  /** How `_send_packet` ends for a popped item. */
  datatype SendEnd = OnAir | Swallowed | WorkerDies

  /** `_send_packet` as written. A tuple goes to the transceiver, any
      exception of which is swallowed. A raw frame is first unpacked into
      five names OUTSIDE the try block: unless it is exactly five bytes long
      that raises and ends the worker thread; a five-byte frame unpacks into
      five ints, and the transceiver's `header + data` on an int message
      raises inside the try and is swallowed. */
  function SendPacketAsWritten(item: StackItem, tx: TxOutcome): SendEnd {
    match item
    case Tuple(_) => if tx == Sent then OnAir else Swallowed
    case RawFrame(f) => if |f| != 5 then WorkerDies else Swallowed
  }

  /** The forwarding branch as written pushes the frame itself. */
  function ForwardAsWritten(stack: seq<StackItem>, frame: Bytes): seq<StackItem> {
    stack + [RawFrame(frame)]
  }

  /** As written, a forwarded frame never reaches the air: node 3 forwarding
      the frame `02 01 07 00 'h' 'i'` (from 1 to 2) kills its own worker on
      the next iteration, and a five-byte frame is silently lost. */
  lemma ForwardAsWrittenNeverTransmits(stack: seq<StackItem>, frame: Bytes, tx: TxOutcome)
    requires |frame| >= 4
    ensures SendPacketAsWritten(Last(ForwardAsWritten(stack, frame)), tx) != OnAir
    ensures |frame| != 5 ==> SendPacketAsWritten(Last(ForwardAsWritten(stack, frame)), tx) == WorkerDies
    ensures SendPacketAsWritten(Last(ForwardAsWritten([], [2, 1, 7, 0, 104, 105])), Sent) == WorkerDies
  {
  }
}
