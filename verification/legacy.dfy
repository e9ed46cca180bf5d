/** The earlier relay, `Messenger`: a dedup set that never ages, a relay
    address that is never "for me", delivery and forwarding mutually
    exclusive, and a header that puts the sender first. */
module Legacy {
  import opened Base
  import opened Packets
  import Framing
  import Interface

  /** A messenger's state: its address, the stack of packets to send, every
      packet it ever processed (all five fields), and its inbox. */
  datatype Messenger = Messenger(
    address: int,
    packetsToSend: seq<Packet>,
    receivedPackets: set<Packet>,
    inbox: seq<Packet>)

  function NewMessenger(address: int): Messenger {
    Messenger(address, [], {}, [])
  }

  /** What one iteration did on the air, if anything. */
  datatype Action = Idle | Transmitted(header: seq<int>, message: Bytes, outcome: TxOutcome)

  /** The loop either goes on with a new state, or its thread has died on an
      exception the source does not catch. */
  datatype Outcome = Running(messenger: Messenger, action: Action) | Died(action: Action)

  /** `_receive`: passes `None` through; otherwise bytes 0 to 3 are read as
      sender, destination, identifier and flags, the rest as the message. */
  function ReceiveFrame(frame: Option<Bytes>): (r: Option<Packet>)
    requires frame.Some? ==> |frame.value| >= 4
    ensures r.None? <==> frame.None?
  {
    match frame
    case None => None
    case Some(f) => Some(Packet(f[1], f[0], f[2], f[3], f[4..]))
  }

  /** The `tx_header` `_send_packet` gives the radio: sender first. */
  function TxHeader(p: Packet): seq<int> {
    [p.from, p.to, p.id, p.flags]
  }

  /** `is_packet_for_me`: never on a relay, else exactly when addressed here;
      a broadcast is not for anyone. */
  predicate IsForMe(address: int, p: Packet) {
    address != BroadcastAddress && p.to == address
  }

  /** One iteration of `Messenger._sender_receiver`. Sending takes priority
      and drains the stack last-in first-out; only a `RuntimeError` from the
      radio is swallowed. A received packet equal in all five fields to one
      seen before is dropped; otherwise it is remembered, then either put in
      the inbox or pushed for forwarding. */
  function Step(m: Messenger, rx: Option<Bytes>, tx: TxOutcome): (o: Outcome)
    requires rx.Some? ==> |rx.value| >= 4
    ensures o.Died? ==> m.packetsToSend != [] && tx == OtherError
    ensures o.Running? ==> o.messenger.address == m.address
    ensures o.Running? ==> m.receivedPackets <= o.messenger.receivedPackets
    ensures o.Running? ==> |m.inbox| <= |o.messenger.inbox| <= |m.inbox| + 1
    ensures o.Running? ==> o.messenger.inbox[..|m.inbox|] == m.inbox
    ensures o.Running? && o.messenger.inbox != m.inbox ==> o.messenger.packetsToSend == m.packetsToSend
  {
    if m.packetsToSend != [] then
      var p := Last(m.packetsToSend);
      var action := Transmitted(TxHeader(p), p.payload, tx);
      if tx == OtherError then Died(action)
      else Running(m.(packetsToSend := DropLast(m.packetsToSend)), action)
    else
      match ReceiveFrame(rx)
      case None => Running(m, Idle)
      case Some(p) =>
        if p in m.receivedPackets then Running(m, Idle)
        else
          var seen := m.(receivedPackets := m.receivedPackets + {p});
          if IsForMe(m.address, p) then Running(seen.(inbox := seen.inbox + [p]), Idle)
          else Running(seen.(packetsToSend := seen.packetsToSend + [p]), Idle)
  }

  // ---------------------------------------------------------------------
  // Properties of the legacy rules

  /** The header `_send_packet` writes is read back by `_receive` as the same
      packet: a packet passed on is re-emitted with its own header. */
  lemma HeaderRoundTrip(p: Packet)
    requires IsByte(p.to) && IsByte(p.from) && IsByte(p.id) && IsByte(p.flags)
    ensures var h := TxHeader(p);
      ReceiveFrame(Some([h[0] as Byte, h[1] as Byte, h[2] as Byte, h[3] as Byte] + p.payload)) == Some(p)
  {
  }

  /** Re-emitting a received frame reproduces it byte for byte. */
  lemma ReframeReceived(frame: Bytes)
    requires |frame| >= 4
    ensures var p := ReceiveFrame(Some(frame)).value;
      TxHeader(p) + p.payload == frame
  {
    var p := ReceiveFrame(Some(frame)).value;
    assert TxHeader(p) == frame[..4];
    assert frame == frame[..4] + frame[4..];
  }

  /** Sending has priority, the stack is drained last-in first-out, nothing
      is received meanwhile, and only a `RuntimeError` is survived. */
  lemma SendFirst(m: Messenger, rx: Option<Bytes>, tx: TxOutcome)
    requires rx.Some? ==> |rx.value| >= 4
    requires m.packetsToSend != []
    ensures var p := m.packetsToSend[|m.packetsToSend| - 1];
      var o := Step(m, rx, tx);
      && o.action == Transmitted([p.from, p.to, p.id, p.flags], p.payload, tx)
      && (o.Died? <==> tx == OtherError)
      && (o.Running? ==>
            o.messenger == m.(packetsToSend := m.packetsToSend[..|m.packetsToSend| - 1]))
  {
  }

  /** A packet seen before, in all five fields, is dropped at any later time:
      the history never expires. Nothing received changes nothing either. */
  lemma SeenIsDropped(m: Messenger, rx: Option<Bytes>, tx: TxOutcome)
    requires rx.Some? ==> |rx.value| >= 4
    requires m.packetsToSend == []
    requires rx.None? || ReceiveFrame(rx).value in m.receivedPackets
    ensures Step(m, rx, tx) == Running(m, Idle)
  {
  }

  /** A fresh packet is remembered, then goes to exactly one of the inbox and
      the forwarding stack: the inbox when it is for me, the stack otherwise. */
  lemma FreshGoesOneWay(m: Messenger, frame: Bytes, tx: TxOutcome)
    requires |frame| >= 4
    requires m.packetsToSend == []
    requires ReceiveFrame(Some(frame)).value !in m.receivedPackets
    ensures var p := ReceiveFrame(Some(frame)).value;
      var o := Step(m, Some(frame), tx);
      && o.Running?
      && o.messenger.receivedPackets == m.receivedPackets + {p}
      && (o.messenger.inbox == m.inbox + [p] <==> frame[1] == m.address && m.address != 255)
      && (o.messenger.packetsToSend == [p] <==> !(frame[1] == m.address && m.address != 255))
      && (o.messenger.inbox == m.inbox || o.messenger.packetsToSend == [])
  {
  }

  // ---------------------------------------------------------------------
  // Comparison with the interface's rules

  /** The legacy "for me" is the interface's minus broadcasts: the two agree
      except on packets addressed to 255, which the interface delivers and
      the messenger does not. */
  lemma ForMeComparison(address: int, p: Packet)
    ensures IsForMe(address, p) ==> Interface.IsForMe(address, p)
    ensures Interface.IsForMe(address, p) && !IsForMe(address, p) <==> p.to == BroadcastAddress
  {
  }

  /** Both revisions forward the same packets; what differs is that the
      interface also delivers the broadcasts it forwards, where the messenger
      keeps delivery and forwarding apart. */
  lemma ForwardComparison(address: int, p: Packet)
    ensures !IsForMe(address, p) <==> Interface.MustForward(address, p)
    ensures IsForMe(address, p) ==> !Interface.MustForward(address, p)
    ensures Interface.MustForward(address, p) && Interface.IsForMe(address, p) <==> p.to == BroadcastAddress
  {
  }

  /** The two revisions read the same frame with the destination and
      sender swapped: the messenger takes byte 0 as the sender, where the
      interface takes it as the destination. */
  lemma ReceiveOrderSwapped(f: Bytes)
    requires |f| >= 4
    ensures var a := Framing.Parse(f);
      ReceiveFrame(Some(f)).value == a.(to := a.from, from := a.to)
  {
  }

  /** The two revisions put the same packet on the air with the destination
      and sender bytes swapped: the messenger's header is the
      `FakeTransceiver` frame's first four bytes with bytes 0 and 1
      exchanged. */
  lemma HeaderOrderSwapped(p: Packet)
    requires IsByte(p.to) && IsByte(p.from) && IsByte(p.id) && IsByte(p.flags)
    requires p.to != 0 && p.from != 0
    ensures var f := Framing.FrameOf(p);
      f.Ok? && TxHeader(p) == [f.value[1], f.value[0], f.value[2], f.value[3]]
  {
    Framing.ParseFrameOf(p);
  }

  /** A fresh messenger drops nothing: the first frame it hears is
      remembered and filed in its inbox or on its stack, never both. */
  lemma NewMessengerTakesFirstFrame(address: int, f: Bytes, tx: TxOutcome)
    requires |f| >= 4
    ensures var p := ReceiveFrame(Some(f)).value;
      var o := Step(NewMessenger(address), Some(f), tx);
      && o == Running(o.messenger, Idle)
      && o.messenger.receivedPackets == {p}
      && (IsForMe(address, p) <==> o.messenger.inbox == [p])
      && (!IsForMe(address, p) <==> o.messenger.packetsToSend == [p])
  {
  }
}
