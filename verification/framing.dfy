/** The 4-byte wire header: how the simulated transceiver builds a frame and
    how the interface reads one back. */
module Framing {
  import opened Base
  import opened Packets

  /** Python's `value or fallback` on an optional int argument: `None` and `0`
      are both falsy and give way to the fallback. */
  function OrElse(v: Option<int>, fallback: int): int {
    if v.None? || v.value == 0 then fallback else v.value
  }

  /** `int.to_bytes(1, 'big')` raised `OverflowError`. */
  datatype FrameError = Overflow

  /** How the interface reads a frame: byte 0 is the destination, byte 1 the
      sender, byte 2 the identifier, byte 3 the flags, the rest the payload.
      Shorter frames make the source's header unpacking raise; it is never
      given one. */
  function Parse(frame: Bytes): (p: Packet)
    requires |frame| >= 4
    ensures IsByte(p.to) && IsByte(p.from) && IsByte(p.id) && IsByte(p.flags)
    ensures |p.payload| + 4 == |frame|
  {
    Packet(frame[0], frame[1], frame[2], frame[3], frame[4..])
  }

  /** The frame `FakeTransceiver.send` emits for `data` and its four keyword
      arguments. Destination and sender fall back to 255 when `None` or `0`,
      identifier and flags to `0`; every header value must then fit one
      unsigned byte. */
  function Frame(data: Bytes, destination: Option<int>, node: Option<int>,
                 identifier: Option<int>, flags: Option<int>): (r: Result<Bytes, FrameError>)
    ensures r.Ok? <==>
      IsByte(OrElse(destination, 255)) && IsByte(OrElse(node, 255)) &&
      IsByte(OrElse(identifier, 0)) && IsByte(OrElse(flags, 0))
    ensures r.Ok? ==> |r.value| == 4 + |data|
    ensures r.Ok? ==>
      Parse(r.value) == Packet(OrElse(destination, 255), OrElse(node, 255), OrElse(identifier, 0), OrElse(flags, 0), data)
  {
    var d := OrElse(destination, 255);
    var n := OrElse(node, 255);
    var i := OrElse(identifier, 0);
    var f := OrElse(flags, 0);
    if IsByte(d) && IsByte(n) && IsByte(i) && IsByte(f) then
      Ok([d as Byte, n as Byte, i as Byte, f as Byte] + data)
    else
      Err(Overflow)
  }

  /** The frame the interface's `_send_packet` asks for: all four header
      fields are passed explicitly. */
  function FrameOf(p: Packet): Result<Bytes, FrameError> {
    Frame(p.payload, Some(p.to), Some(p.from), Some(p.id), Some(p.flags))
  }

  /** A packet whose header fields are bytes, with a non-zero destination and
      sender, survives a trip over the air unchanged. */
  lemma ParseFrameOf(p: Packet)
    requires IsByte(p.to) && IsByte(p.from) && IsByte(p.id) && IsByte(p.flags)
    requires p.to != 0 && p.from != 0
    ensures FrameOf(p).Ok?
    ensures Parse(FrameOf(p).value) == p
  {
  }

  /** Re-framing a received frame reproduces it byte for byte exactly when its
      destination and sender bytes are non-zero; a zero in either is
      rewritten to 255, so a relayed packet addressed to 0 goes out as a
      broadcast. */
  lemma FrameOfParse(frame: Bytes)
    requires |frame| >= 4
    ensures FrameOf(Parse(frame)).Ok?
    ensures FrameOf(Parse(frame)).value == frame <==> frame[0] != 0 && frame[1] != 0
    ensures frame[0] == 0 ==> FrameOf(Parse(frame)).value[0] == 255
    ensures frame[1] == 0 ==> FrameOf(Parse(frame)).value[1] == 255
  {
    var r := FrameOf(Parse(frame)).value;
    assert r[4..] == frame[4..];
    if frame[0] != 0 && frame[1] != 0 {
      assert r[..4] == frame[..4];
      assert r == r[..4] + r[4..];
      assert frame == frame[..4] + frame[4..];
    } else {
      assert r[0] != frame[0] || r[1] != frame[1];
    }
  }
}
