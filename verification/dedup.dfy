/** The interface's record of recently processed packets and the
    time-windowed duplicate test over it. */
module Dedup {
  import opened Packets

  /** Two packets with the same key are the same packet while their receptions
      are at most this many seconds apart. */
  const MaxAge: real := 3.0

  /** One remembered packet: its key and when it was processed. */
  datatype Entry = Entry(key: Key, at: real)

  type History = seq<Entry>

  /** An entry is still consulted at time `now` unless it is more than
      `MaxAge` old. An entry stamped later than `now` is never too old. */
  predicate Live(e: Entry, now: real) {
    !(now - e.at > MaxAge)
  }

  /** Reference meaning of "already received": some live entry has the
      packet's key. */
  ghost predicate Recorded(h: History, k: Key, now: real) {
    exists i :: 0 <= i < |h| && h[i].key == k && Live(h[i], now)
  }

  /** The duplicate test, scanning the history front to back the way the
      source's loop does: stale entries are skipped, the first live entry
      with the packet's key answers yes. */
  function AlreadyReceived(h: History, p: Packet, now: real): (b: bool)
    ensures b <==> Recorded(h, KeyOf(p), now)
  {
    if h == [] then false
    else if !Live(h[0], now) then AlreadyReceived(h[1..], p, now)
    else if h[0].key == KeyOf(p) then true
    else AlreadyReceived(h[1..], p, now)
  }

  /** Keeps a trace of a processed packet, stamped with `now`. */
  function Remember(h: History, p: Packet, now: real): (r: History)
    ensures |r| == |h| + 1 && r[..|h|] == h
    ensures Recorded(r, KeyOf(p), now)
  {
    var r := h + [Entry(KeyOf(p), now)];
    assert r[|h|].key == KeyOf(p) && Live(r[|h|], now);
    r
  }

  /** A packet just remembered is recognised by any packet with the same key,
      whatever its flags and payload, for `MaxAge` seconds inclusive. */
  lemma RememberedIsRecognised(h: History, p: Packet, t: real, q: Packet, now: real)
    requires KeyOf(q) == KeyOf(p)
    requires now - t <= MaxAge
    ensures AlreadyReceived(Remember(h, p, t), q, now)
  {
    var h' := Remember(h, p, t);
    assert h'[|h|].key == KeyOf(q) && Live(h'[|h|], now);
  }

  /** Once every entry with the packet's key is older than `MaxAge`, the
      packet counts as new again. */
  lemma ExpiredIsForgotten(h: History, p: Packet, now: real)
    requires forall i :: 0 <= i < |h| && h[i].key == KeyOf(p) ==> now - h[i].at > MaxAge
    ensures !AlreadyReceived(h, p, now)
  {
  }

  /** Remembering a packet with another key does not change the answer for `q`. */
  lemma RememberOtherKey(h: History, p: Packet, t: real, q: Packet, now: real)
    requires KeyOf(q) != KeyOf(p)
    ensures AlreadyReceived(Remember(h, p, t), q, now) == AlreadyReceived(h, q, now)
  {
    var h' := Remember(h, p, t);
    if AlreadyReceived(h', q, now) {
      var i :| 0 <= i < |h'| && h'[i].key == KeyOf(q) && Live(h'[i], now);
      assert i < |h| && h[i] == h'[i];
    }
    if AlreadyReceived(h, q, now) {
      RecordedInExtension(h, [Entry(KeyOf(p), t)], q, now);
    }
  }

  /** Facts remain recorded when more entries are appended behind them. */
  lemma RecordedInExtension(h: History, ext: History, p: Packet, now: real)
    requires AlreadyReceived(h, p, now)
    ensures AlreadyReceived(h + ext, p, now)
  {
    var i :| 0 <= i < |h| && h[i].key == KeyOf(p) && Live(h[i], now);
    assert (h + ext)[i] == h[i];
  }

  /** Keys of two entries stamped with a clock that never goes back are more
      than `MaxAge` apart: the history a node builds satisfies this. */
  ghost predicate Spaced(h: History) {
    forall i, j :: 0 <= i < j < |h| && h[i].key == h[j].key ==> h[j].at - h[i].at > MaxAge
  }

  /** No entry is stamped later than `now`. */
  ghost predicate NotAfter(h: History, now: real) {
    forall i :: 0 <= i < |h| ==> h[i].at <= now
  }

  /** Remembering a packet that is not already received keeps the history
      spaced, as long as the clock has not gone back. */
  lemma RememberKeepsSpaced(h: History, p: Packet, now: real)
    requires Spaced(h) && NotAfter(h, now)
    requires !AlreadyReceived(h, p, now)
    ensures Spaced(Remember(h, p, now)) && NotAfter(Remember(h, p, now), now)
  {
    var h' := Remember(h, p, now);
    forall i, j | 0 <= i < j < |h'| && h'[i].key == h'[j].key
      ensures h'[j].at - h'[i].at > MaxAge
    {
      if j == |h| {
        assert h'[i] == h[i];
        assert !(h[i].key == KeyOf(p) && Live(h[i], now));
      } else {
        assert h'[i] == h[i] && h'[j] == h[j];
      }
    }
  }

  /** In a spaced history with no future stamps, an entry with a later
      namesake is no longer live: at most one entry per key is consulted, so
      keeping only the latest stamp per key would answer the same. */
  lemma EarlierNamesakeIsStale(h: History, now: real, i: int, j: int)
    requires Spaced(h) && NotAfter(h, now)
    requires 0 <= i < j < |h| && h[i].key == h[j].key
    ensures !Live(h[i], now)
  {
    assert h[j].at - h[i].at > MaxAge;
  }
}
