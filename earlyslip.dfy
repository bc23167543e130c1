/**
  The earlier generation of the library, sliplib/slip.py: encode and decode
  include the framing END bytes, and its Driver decodes packets as soon as
  they are complete, keeping the messages decoded before a ProtocolError for
  the caller to collect.
 */
module EarlySlip {
  import opened SlipBytes
  import Slip
  import Legacy
  import SlipConfig
  import FrameEngine

  /** encode(msg): END, the escaped message (ESC escaped before END), END. */
  function Encode(msg: seq<Byte>): seq<Byte>
  {
    [END] + Slip.Encode(msg) + [END]
  }

  /** is_valid(packet): after stripping the outer END bytes, the current validity test. */
  predicate IsValid(packet: seq<Byte>)
  {
    Slip.IsValid(StripEnd(packet))
  }

  /**
    decode(packet): strip the outer END bytes; a ProtocolError with the
    stripped packet if that is not valid, otherwise the unescaped packet.
   */
  function Decode(packet: seq<Byte>): Slip.Decoded
  {
    var p := StripEnd(packet);
    if !IsValid(p) then Slip.ProtocolError(p)
    else Slip.Message(Slip.ReplaceEscapes(StripEnd(p)))
  }

  /** encode(b"") is END END. */
  lemma EncodeEmpty()
    ensures Encode([]) == [END, END]
  {
  }

  /** The earlier encode is the legacy encode with the leading END configured. */
  lemma EncodeIsLegacy(config: SlipConfig.Configuration, msg: seq<Byte>)
    requires config.useLeadingEndByte
    ensures Encode(msg) == Legacy.Encode(config, msg)
  {
  }

  /** The earlier decode is the legacy decode: stripping, then the current decode. */
  lemma DecodeIsLegacy(packet: seq<Byte>)
    ensures Decode(packet) == Legacy.Decode(packet)
  {
    var p := StripEnd(packet);
    StripEndIdempotent(packet);
    assert StripEnd(p) == p;
  }

  /** decode(encode(m)) == m. */
  lemma DecodeEncode(msg: seq<Byte>)
    ensures Decode(Encode(msg)) == Slip.Message(msg)
  {
    DecodeIsLegacy(Encode(msg));
    Legacy.DecodeFramed([END], msg, [END]);
  }

  /**
    decode raises exactly when is_valid is false, with the stripped packet,
    and otherwise gives the message whose encoding is the stripped packet.
   */
  lemma DecodeValidity(packet: seq<Byte>)
    ensures Decode(packet).ProtocolError? <==> !IsValid(packet)
    ensures Decode(packet).ProtocolError? ==> Decode(packet).packet == StripEnd(packet)
    ensures Decode(packet).Message? ==> Slip.Encode(Decode(packet).msg) == StripEnd(packet)
  {
    DecodeIsLegacy(packet);
    StripEndIdempotent(packet);
  }

  // ---------------------------------------------------------------------------
  // The Driver
  // ---------------------------------------------------------------------------

  /** What receive and flush give: the decoded messages, or the raised ProtocolError with its packet. */
  datatype Flushed = Done(msgs: seq<seq<Byte>>) | Failed(packet: seq<Byte>)

  /**
    Decoding queued packets oldest first until one is invalid: the messages
    decoded before it, the packet of its ProtocolError if there is one, and
    the packets after it.
   */
  function Flushing(ps: seq<seq<Byte>>): (seq<seq<Byte>>, Option<seq<Byte>>, seq<seq<Byte>>)
    decreases |ps|
  {
    if ps == [] then ([], None, [])
    else match Decode(ps[0])
      case ProtocolError(p) => ([], Some(p), ps[1..])
      case Message(m) =>
        var (ms, bad, rest) := Flushing(ps[1..]);
        ([m] + ms, bad, rest)
  }

  /**
    flush decodes a prefix of the queue: every packet before the bad one gives
    its message, in order; without a bad packet the whole queue is decoded and
    nothing is left, and with one, exactly the packets after it are left.
   */
  lemma {:induction false} FlushingSpec(ps: seq<seq<Byte>>)
    ensures var (ms, bad, rest) := Flushing(ps);
            |ms| <= |ps| &&
            (forall i :: 0 <= i < |ms| ==> Decode(ps[i]) == Slip.Message(ms[i])) &&
            (bad.None? ==> |ms| == |ps| && rest == []) &&
            (bad.Some? ==> |ms| < |ps| && Decode(ps[|ms|]) == Slip.ProtocolError(bad.value) && rest == ps[|ms| + 1..])
    decreases |ps|
  {
    if ps != [] {
      FlushingSpec(ps[1..]);
    }
  }

  /** Without a bad packet, flush leaves nothing queued. */
  lemma {:induction false} FlushingRest(ps: seq<seq<Byte>>)
    ensures Flushing(ps).1.None? ==> Flushing(ps).2 == []
    decreases |ps|
  {
    if ps != [] {
      FlushingRest(ps[1..]);
    }
  }

  /**
    The buffer and queue after receive(data) has split the data, before it
    flushes: empty data counts as END, leading END bytes are stripped, and if
    anything is left, all its pieces are queued and the last is taken back as
    the buffer.
   */
  function Collect(buffer: seq<Byte>, packets: seq<seq<Byte>>, data: seq<Byte>): (seq<Byte>, seq<seq<Byte>>)
  {
    var d := if data == [] then [END] else data;
    var b := LStripEnd(buffer + d);
    if b == [] then (b, packets)
    else
      var q := packets + SplitEndRuns(b);
      (q[|q| - 1], q[..|q| - 1])
  }

  /** The earlier receive splits incoming data exactly as the current Driver's receive does. */
  lemma CollectIsFeed(buffer: seq<Byte>, packets: seq<seq<Byte>>, data: seq<Byte>, finished: bool)
    ensures var st := FrameEngine.Feed(FrameEngine.RxState(packets, buffer, finished), data);
            Collect(buffer, packets, data) == (st.buffer, st.packets)
  {
    var d := if data == [] then [END] else data;
    var b := LStripEnd(buffer + d);
    if b == [] {
      assert packets + [] == packets;
    } else {
      var pieces := SplitEndRuns(b);
      var q := packets + pieces;
      assert q[..|q| - 1] == packets + pieces[..|pieces| - 1];
    }
  }

  /** receive(b"") is receive(END): the partial packet in the buffer is completed. */
  lemma CollectEndOfStream(buffer: seq<Byte>, packets: seq<seq<Byte>>)
    requires FrameEngine.WellFormed(FrameEngine.RxState(packets, buffer, false))
    ensures Collect(buffer, packets, []) == Collect(buffer, packets, [END])
    ensures Collect(buffer, packets, []) == ([], packets + if buffer == [] then [] else [buffer])
  {
    CollectIsFeed(buffer, packets, [], false);
    FrameEngine.FeedEndOfStream(FrameEngine.RxState(packets, buffer, false));
  }

  /** Only complete packets are queued; the unterminated tail stays buffered, without END. */
  lemma CollectWellFormed(buffer: seq<Byte>, packets: seq<seq<Byte>>, data: seq<Byte>)
    requires FrameEngine.WellFormed(FrameEngine.RxState(packets, buffer, false))
    ensures var (b, q) := Collect(buffer, packets, data);
            FrameEngine.WellFormed(FrameEngine.RxState(q, b, false))
  {
    CollectIsFeed(buffer, packets, data, false);
    FrameEngine.FeedWellFormed(FrameEngine.RxState(packets, buffer, false), data);
  }

  class Driver {
    var recvBuffer: seq<Byte>
    /** The complete packets not yet decoded, oldest first. */
    var packets: seq<seq<Byte>>
    /** The messages decoded before the last ProtocolError, kept for the messages property. */
    var messages: seq<seq<Byte>>

    ghost predicate Valid()
      reads this
    {
      FrameEngine.WellFormed(FrameEngine.RxState(packets, recvBuffer, false))
    }

    constructor()
      ensures Valid() && recvBuffer == [] && packets == [] && messages == []
    {
      recvBuffer := [];
      packets := [];
      messages := [];
    }

    /** send(message) is encode(message); the Driver does not change. */
    method Send(message: seq<Byte>) returns (packet: seq<Byte>)
      ensures packet == Encode(message)
    {
      packet := Encode(message);
    }

    /** receive(data): split the data as Collect says, then flush. */
    method Receive(data: seq<Byte>) returns (r: Flushed)
      requires Valid()
      modifies this
      ensures Valid()
      ensures var (b, q) := Collect(old(recvBuffer), old(packets), data);
              var (ms, bad, rest) := Flushing(q);
              recvBuffer == b && packets == rest &&
              if bad.None? then r == Done(ms) && messages == old(messages)
              else r == Failed(bad.value) && messages == ms
    {
      CollectWellFormed(recvBuffer, packets, data);
      var d := data;
      if d == [] {
        d := [END];
      }
      recvBuffer := recvBuffer + d;
      recvBuffer := LStripEnd(recvBuffer);
      if recvBuffer != [] {
        packets := packets + SplitEndRuns(recvBuffer);
        recvBuffer := packets[|packets| - 1];
        packets := packets[..|packets| - 1];
      }
      r := Flush();
    }

    /** flush(): decode queued packets oldest first, stopping at the first ProtocolError. */
    method Flush() returns (r: Flushed)
      requires Valid()
      modifies this
      ensures Valid() && recvBuffer == old(recvBuffer)
      ensures var (ms, bad, rest) := Flushing(old(packets));
              packets == rest &&
              if bad.None? then r == Done(ms) && messages == old(messages)
              else r == Failed(bad.value) && messages == ms
    {
      var decoded := [];
      assert [] + Flushing(packets).0 == Flushing(packets).0;
      while packets != []
        invariant Valid() && recvBuffer == old(recvBuffer) && messages == old(messages)
        invariant var (ms, bad, rest) := Flushing(packets);
                  Flushing(old(packets)) == (decoded + ms, bad, rest)
        decreases |packets|
      {
        var p := packets[0];
        packets := packets[1..];
        var d := Decode(p);
        if d.ProtocolError? {
          // the messages decoded so far are kept for the caller, and the bad packet is gone
          messages := decoded;
          assert decoded + [] == decoded;
          return Failed(d.packet);
        }
        var (ms, bad, rest) := Flushing(packets);
        assert decoded + [d.msg] + ms == decoded + ([d.msg] + ms);
        decoded := decoded + [d.msg];
      }
      assert decoded + [] == decoded;
      r := Done(decoded);
    }

    /** The messages property: the kept messages, which are cleared by reading them. */
    method TakeMessages() returns (ms: seq<seq<Byte>>)
      modifies this
      ensures ms == old(messages) && messages == []
      ensures packets == old(packets) && recvBuffer == old(recvBuffer)
    {
      ms := messages;
      messages := [];
    }
  }
}
