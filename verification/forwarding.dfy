/** The two forwarding loops that run once both streams are established
    (protocol.go, `recvListen` lines 70-92 and `main` lines 187-206). Each
    unbounded loop is modelled over the finite sequence of reads it
    performs; a failed read stops the process (`log.Fatal`), so nothing
    after it is forwarded. */
module Forwarding {
  import opened Bytes

  /** Size of the receive loop's read buffer. */
  const ReceiveBufLen := 1500
  /** Size of the send loop's read buffer. */
  const SendBufLen := 2000
  /** The send loop drops a packet whose first byte equals this whole byte. */
  const DroppedFirstByte: Byte := 0x60

  /** One blocking read: the bytes it returned, or a failure. */
  datatype ReadEvent = Data(bytes: seq<Byte>) | ReadFailure

  /** No read returns more bytes than the buffer it reads into. */
  predicate FitIn(events: seq<ReadEvent>, cap: nat)
  {
    forall i :: 0 <= i < |events| && events[i].Data? ==> |events[i].bytes| <= cap
  }

  /** The reads that complete before the first failed read, in order. */
  function ReadsBeforeFailure(events: seq<ReadEvent>): (d: seq<seq<Byte>>)
    ensures |d| <= |events|
    ensures forall i :: 0 <= i < |d| ==> events[i] == Data(d[i])
    ensures |d| < |events| ==> events[|d|].ReadFailure?
  {
    if |events| == 0 || events[0].ReadFailure? then []
    else [events[0].bytes] + ReadsBeforeFailure(events[1..])
  }

  /** The buffer after a read of `data` into it: the new bytes at the
      front, stale bytes from earlier reads behind them. */
  function Overwrite(buf: seq<Byte>, data: seq<Byte>): (b: seq<Byte>)
    requires |data| <= |buf|
    ensures |b| == |buf|
    ensures b[..|data|] == data
    ensures b[|data|..] == buf[|data|..]
  {
    data + buf[|data|..]
  }

  /** The receive loop: every read from the receive stream is written to
      the device as one write of exactly the bytes read. */
  method ReceiveLoop(events: seq<ReadEvent>) returns (writes: seq<seq<Byte>>)
    requires FitIn(events, ReceiveBufLen)
    ensures writes == ReadsBeforeFailure(events)
  {
    var reply := Zeros(ReceiveBufLen);
    writes := [];
    var pending := events;  // the reads still to come
    while pending != [] && pending[0].Data?
      invariant FitIn(pending, ReceiveBufLen)
      invariant |reply| == ReceiveBufLen
      invariant ReadsBeforeFailure(events) == writes + ReadsBeforeFailure(pending)
      decreases |pending|
    {
      var n := |pending[0].bytes|;
      reply := Overwrite(reply, pending[0].bytes);
      assert ReadsBeforeFailure(pending) == [reply[..n]] + ReadsBeforeFailure(pending[1..]);
      writes := writes + [reply[..n]];
      pending := pending[1..];
    }
  }

  /** The send loop from a given buffer state. The first-byte test reads
      the whole buffer, so a read returning nothing is judged by the first
      byte of the last non-empty packet. */
  function SendLoop(buf: seq<Byte>, events: seq<ReadEvent>): (writes: seq<seq<Byte>>)
    requires |buf| == SendBufLen && FitIn(events, SendBufLen)
    ensures |writes| <= |ReadsBeforeFailure(events)|
    ensures forall i :: 0 <= i < |writes| && |writes[i]| > 0 ==> writes[i][0] != DroppedFirstByte
    decreases |events|
  {
    if |events| == 0 || events[0].ReadFailure? then []
    else
      var n := |events[0].bytes|;
      var b := Overwrite(buf, events[0].bytes);
      assert FitIn(events[1..], SendBufLen);
      var rest := SendLoop(b, events[1..]);
      if b[0] == DroppedFirstByte then rest else [b[..n]] + rest
  }

  /** Reference behaviour of the send filter: keep a packet unless its
      first byte is 0x60, preserving order and contents. */
  function DropFirstByte60(packets: seq<seq<Byte>>): (kept: seq<seq<Byte>>)
    requires forall i :: 0 <= i < |packets| ==> |packets[i]| > 0
  {
    if |packets| == 0 then []
    else if packets[0][0] == DroppedFirstByte then DropFirstByte60(packets[1..])
    else [packets[0]] + DropFirstByte60(packets[1..])
  }

  /** When no read before the first failure comes back empty, the send
      loop writes exactly the packets whose first byte is not 0x60,
      unmodified and in order, whatever the buffer held before. */
  lemma {:induction false} SendLoopFilters(buf: seq<Byte>, events: seq<ReadEvent>)
    requires |buf| == SendBufLen && FitIn(events, SendBufLen)
    requires forall i :: 0 <= i < |ReadsBeforeFailure(events)| ==> |ReadsBeforeFailure(events)[i]| > 0
    ensures SendLoop(buf, events) == DropFirstByte60(ReadsBeforeFailure(events))
    decreases |events|
  {
    if |events| == 0 || events[0].ReadFailure? {
    } else {
      var b := Overwrite(buf, events[0].bytes);
      assert ReadsBeforeFailure(events) == [events[0].bytes] + ReadsBeforeFailure(events[1..]);
      assert |events[0].bytes| > 0;
      assert b[0] == events[0].bytes[0];
      assert FitIn(events[1..], SendBufLen);
      SendLoopFilters(b, events[1..]);
    }
  }

  /** The packets of `packets` that are not empty, in order. */
  function NonEmpty(packets: seq<seq<Byte>>): (r: seq<seq<Byte>>)
    ensures forall i :: 0 <= i < |r| ==> |r[i]| > 0
  {
    if |packets| == 0 then []
    else if |packets[0]| == 0 then NonEmpty(packets[1..])
    else [packets[0]] + NonEmpty(packets[1..])
  }

  /** Whatever the reads and the buffer, once empty packets are set aside
      the send loop writes exactly the non-empty packets read before the
      first failure whose first byte is not 0x60, unmodified and in order. */
  lemma {:induction false} SendLoopFiltersNonEmpty(buf: seq<Byte>, events: seq<ReadEvent>)
    requires |buf| == SendBufLen && FitIn(events, SendBufLen)
    ensures NonEmpty(SendLoop(buf, events)) == DropFirstByte60(NonEmpty(ReadsBeforeFailure(events)))
    decreases |events|
  {
    if |events| == 0 || events[0].ReadFailure? {
    } else {
      var p := events[0].bytes;
      var b := Overwrite(buf, p);
      assert FitIn(events[1..], SendBufLen);
      var rest := SendLoop(b, events[1..]);
      var later := ReadsBeforeFailure(events[1..]);
      assert ReadsBeforeFailure(events) == [p] + later;
      assert ([p] + later)[1..] == later;
      SendLoopFiltersNonEmpty(b, events[1..]);
      if b[0] != DroppedFirstByte {
        assert SendLoop(buf, events) == [b[..|p|]] + rest;
        assert ([b[..|p|]] + rest)[1..] == rest;
      }
      if |p| > 0 {
        assert b[0] == p[0];
        assert b[..|p|] == p;
        assert NonEmpty([p] + later) == [p] + NonEmpty(later);
        assert ([p] + NonEmpty(later))[1..] == NonEmpty(later);
      }
    }
  }

  /** The send loop as written, with its 2000-byte buffer. */
  method SendForwarder(events: seq<ReadEvent>) returns (writes: seq<seq<Byte>>)
    requires FitIn(events, SendBufLen)
    ensures writes == SendLoop(Zeros(SendBufLen), events)
  {
    var message := Zeros(SendBufLen);
    writes := [];
    var pending := events;  // the reads still to come
    while pending != [] && pending[0].Data?
      invariant FitIn(pending, SendBufLen)
      invariant |message| == SendBufLen
      invariant SendLoop(Zeros(SendBufLen), events) == writes + SendLoop(message, pending)
      decreases |pending|
    {
      var n := |pending[0].bytes|;
      message := Overwrite(message, pending[0].bytes);
      // a packet whose buffer starts with 0x60 is skipped, any other is written
      if message[0] != DroppedFirstByte {
        writes := writes + [message[..n]];
      }
      pending := pending[1..];
    }
  }

  /** The test is on the whole byte: an IPv6 packet with a non-zero
      traffic class (first byte 0x61) is forwarded, not dropped. */
  lemma Ipv6WithTrafficClassForwarded()
    ensures SendLoop(Zeros(SendBufLen), [Data([0x61, 0, 0, 0])]) == [[0x61, 0, 0, 0]]
    ensures SendLoop(Zeros(SendBufLen), [Data([0x60, 0, 0, 0])]) == []
  {
    var p: seq<Byte> := [0x61, 0, 0, 0];
    assert Overwrite(Zeros(SendBufLen), p)[..4] == p;
  }

  /** An empty read is judged by the stale first byte left in the buffer:
      it is dropped if that byte is 0x60 and written as an empty write
      otherwise; the reads after it are unaffected. */
  lemma {:induction false} EmptyReadUsesStaleByte(buf: seq<Byte>, events: seq<ReadEvent>)
    requires |buf| == SendBufLen && FitIn(events, SendBufLen)
    ensures FitIn([Data([])] + events, SendBufLen)
    ensures SendLoop(buf, [Data([])] + events)
            == (if buf[0] == DroppedFirstByte then [] else [[]]) + SendLoop(buf, events)
  {
    assert ([Data([])] + events)[1..] == events;
    assert Overwrite(buf, []) == buf;
  }
}
