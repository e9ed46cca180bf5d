/** The publish/subscribe layer: topic envelopes broadcast with a reserved
    flag, and the filter each subscriber puts in front of its callback. */
module PubSub {
  import opened Base
  import opened Packets
  import Interface

  /** The flags value that marks a payload as a topic envelope. */
  const PubsubFlag: int := 235

  // ---------------------------------------------------------------------
  // Topic envelope
  //
  // The source pickles the pair (topic_name, message). Pickle's format is
  // not part of this model; in its place stands a self-delimiting encoding
  // with a proved inverse: each topic character is the tag byte 1 followed by
  // its code point in three bytes, the byte 0 ends the topic, and each
  // message character follows as three bytes.

  const MaxCodePoint: int := 0x11_0000

  /** Code points Dafny's `char` can hold: Unicode scalar values. */
  predicate IsScalar(n: int) {
    (0 <= n < 0xD800) || (0xE000 <= n < MaxCodePoint)
  }

  function EncodeChar(c: char): (b: Bytes)
    ensures |b| == 3
  {
    var n := c as int;
    [n / 0x1_0000, (n % 0x1_0000) / 0x100, (n % 0x1_0000) % 0x100]
  }

  function DecodeChar(b0: Byte, b1: Byte, b2: Byte): Option<char> {
    var n := (b0 as int) * 0x1_0000 + (b1 as int) * 0x100 + (b2 as int);
    if IsScalar(n) then Some(n as char) else None
  }

  function EncodeTopic(topic: string): (b: Bytes)
    ensures |b| == 4 * |topic| + 1
  {
    if topic == [] then [0] else [1] + EncodeChar(topic[0]) + EncodeTopic(topic[1..])
  }

  function EncodeMessage(message: string): (b: Bytes)
    ensures |b| == 3 * |message|
  {
    if message == [] then [] else EncodeChar(message[0]) + EncodeMessage(message[1..])
  }

  /** The payload `publish` sends for `(topic, message)`. */
  function EncodeEnvelope(topic: string, message: string): Bytes {
    EncodeTopic(topic) + EncodeMessage(message)
  }

  /** Reads a topic off the front of `b`, returning it with the bytes after
      its terminator. */
  function DecodeTopic(b: Bytes): (r: Option<(string, Bytes)>)
    ensures r.Some? ==> |r.value.1| < |b|
    decreases |b|
  {
    if b == [] then None
    else if b[0] == 0 then Some(([], b[1..]))
    else if b[0] != 1 || |b| < 4 then None
    else match DecodeChar(b[1], b[2], b[3])
      case None => None
      case Some(c) =>
        match DecodeTopic(b[4..])
        case None => None
        case Some(rest) => Some(([c] + rest.0, rest.1))
  }

  function DecodeMessage(b: Bytes): Option<string>
    decreases |b|
  {
    if b == [] then Some([])
    else if |b| < 3 then None
    else match DecodeChar(b[0], b[1], b[2])
      case None => None
      case Some(c) =>
        match DecodeMessage(b[3..])
        case None => None
        case Some(rest) => Some([c] + rest)
  }

  /** What `pickle.loads(payload)` followed by unpacking into two names gives:
      the pair, or `None` where the source raises. */
  function DecodeEnvelope(b: Bytes): Option<(string, string)> {
    match DecodeTopic(b)
    case None => None
    case Some(t) =>
      match DecodeMessage(t.1)
      case None => None
      case Some(m) => Some((t.0, m))
  }

  lemma DecodeEncodeChar(c: char)
    ensures var b := EncodeChar(c); DecodeChar(b[0], b[1], b[2]) == Some(c)
  {
    var n := c as int;
    var b := EncodeChar(c);
    assert n % 0x1_0000 == ((n % 0x1_0000) / 0x100) * 0x100 + (n % 0x1_0000) % 0x100;
    assert n == (n / 0x1_0000) * 0x1_0000 + n % 0x1_0000;
    assert (b[0] as int) * 0x1_0000 + (b[1] as int) * 0x100 + (b[2] as int) == n;
  }

  /** Decoding a topic that starts with one encoded character reads that
      character and carries on with the rest. */
  lemma DecodeTopicCons(c: char, tail: Bytes)
    ensures DecodeTopic([1] + EncodeChar(c) + tail) ==
      match DecodeTopic(tail)
      case None => None
      case Some(rest) => Some(([c] + rest.0, rest.1))
  {
    var b := [1] + EncodeChar(c) + tail;
    var e := EncodeChar(c);
    DecodeEncodeChar(c);
    assert b[0] == 1 && b[1] == e[0] && b[2] == e[1] && b[3] == e[2];
    assert b[4..] == tail;
  }

  lemma {:induction false} DecodeEncodeTopic(topic: string, rest: Bytes)
    ensures DecodeTopic(EncodeTopic(topic) + rest) == Some((topic, rest))
    decreases |topic|
  {
    if topic != [] {
      var tail := EncodeTopic(topic[1..]) + rest;
      assert EncodeTopic(topic) + rest == [1] + EncodeChar(topic[0]) + tail;
      DecodeEncodeTopic(topic[1..], rest);
      DecodeTopicCons(topic[0], tail);
      assert [topic[0]] + topic[1..] == topic;
    } else {
      assert EncodeTopic(topic) + rest == [0] + rest;
    }
  }

  lemma {:induction false} DecodeEncodeMessage(message: string)
    ensures DecodeMessage(EncodeMessage(message)) == Some(message)
    decreases |message|
  {
    if message != [] {
      var b := EncodeMessage(message);
      var e := EncodeChar(message[0]);
      DecodeEncodeChar(message[0]);
      assert b[..3] == e;
      assert b[3..] == EncodeMessage(message[1..]);
      DecodeEncodeMessage(message[1..]);
      assert [message[0]] + message[1..] == message;
    }
  }

  /** Decoding an envelope gives back exactly the topic and message it was
      built from. */
  lemma EnvelopeRoundTrip(topic: string, message: string)
    ensures DecodeEnvelope(EncodeEnvelope(topic, message)) == Some((topic, message))
  {
    DecodeEncodeTopic(topic, EncodeMessage(message));
    DecodeEncodeMessage(message);
  }

  // ---------------------------------------------------------------------
  // Publisher

  /** `Publisher.publish`: broadcasts the envelope of `(topic, message)` with
      the pub/sub flag, through the interface's `send`. */
  function Publish(n: Interface.Node, topic: string, message: string, id: int): (r: Interface.Node)
    requires 0 <= id <= 254
    ensures r.queue == n.queue + [Packet(BroadcastAddress, n.address, id, PubsubFlag, EncodeEnvelope(topic, message))]
    ensures r == n.(queue := r.queue)
  {
    Interface.Send(n, EncodeEnvelope(topic, message), BroadcastAddress, PubsubFlag, id)
  }

  // ---------------------------------------------------------------------
  // Subscriber

  /** A subscription: the topic, the user's callback, and the wrapper the
      subscriber registered on the interface in its place. */
  datatype Subscriber = Subscriber(topic: string, callback: Handle, wrapper: Handle)

  /** What the wrapper `inner` does with one delivery. `Raised` is an
      envelope that does not decode: the source does not catch the
      exception, which leaves through the interface's loop. */
  datatype FilterOutcome = Ignored | Invoked(message: string) | Raised

  /** The wrapper `inner(payload, flags)` of a subscriber on `topic`. */
  function Filter(topic: string, payload: Bytes, flags: int): (r: FilterOutcome)
    ensures flags != PubsubFlag ==> r == Ignored
    ensures r.Invoked? <==>
      flags == PubsubFlag && DecodeEnvelope(payload).Some? && DecodeEnvelope(payload).value.0 == topic
    ensures r.Invoked? ==> r.message == DecodeEnvelope(payload).value.1
    ensures r.Raised? <==> flags == PubsubFlag && DecodeEnvelope(payload).None?
  {
    if flags != PubsubFlag then Ignored
    else match DecodeEnvelope(payload)
      case None => Raised
      case Some(env) => if env.0 != topic then Ignored else Invoked(env.1)
  }

  /** Constructing a `Subscriber` registers exactly one reception callback,
      its wrapper, and touches nothing else: nothing is sent. The source
      calls `register_reception_callback`, which the interface does not
      define; the model uses the interface's `add_on_reception_callback`. */
  function Subscribe(n: Interface.Node, topic: string, callback: Handle, wrapper: Handle): (r: (Interface.Node, Subscriber))
    ensures r.0.receptionCallbacks == n.receptionCallbacks + [wrapper]
    ensures r.0 == n.(receptionCallbacks := r.0.receptionCallbacks)
    ensures r.1 == Subscriber(topic, callback, wrapper)
  {
    (Interface.AddReceptionCallback(n, wrapper), Subscriber(topic, callback, wrapper))
  }

  /** A subscriber handed a published packet calls its callback with the
      message exactly when it listens on the topic it was published on, and
      ignores it otherwise. */
  lemma PublishThenFilter(n: Interface.Node, topic: string, message: string, id: int, subTopic: string)
    requires 0 <= id <= 254
    ensures var p := Last(Publish(n, topic, message, id).queue);
      Filter(subTopic, p.payload, p.flags) == if subTopic == topic then Invoked(message) else Ignored
  {
    EnvelopeRoundTrip(topic, message);
  }
}
