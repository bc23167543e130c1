/**
  The earlier message interface, sliplib/slipwrapper.py: a SlipWrapper over
  the earlier Driver, whose recv_msg keeps decoded messages in a FIFO, stores
  a ProtocolError until the messages decoded before it are delivered, and
  flushes the Driver after raising it.  Future is the sequence of replies the
  wrapper is bound to give; recv_msg is proved to give its first element and
  leave the rest, so no message is lost, duplicated or reordered and every
  error is raised once, in its place.
 */
module EarlyWrapper {
  import opened SlipBytes
  import Slip
  import FrameEngine
  import EarlySlip
  import MessageWrapper

  /** What recv_msg gives: a message (b"" at the end of the stream), or a raised ProtocolError. */
  datatype Reply = Msg(msg: seq<Byte>) | Fault(packet: seq<Byte>)

  /** The reply for decoding one packet. */
  function ReplyOf(d: Slip.Decoded): Reply
  {
    match d
    case Message(m) => Msg(m)
    case ProtocolError(p) => Fault(p)
  }

  /** The replies for decoding each packet in turn. */
  function Outcomes(ps: seq<seq<Byte>>): seq<Reply>
    decreases |ps|
  {
    if ps == [] then [] else [ReplyOf(EarlySlip.Decode(ps[0]))] + Outcomes(ps[1..])
  }

  /** The replies for messages already decoded. */
  function Msgs(ms: seq<seq<Byte>>): seq<Reply>
    decreases |ms|
  {
    if ms == [] then [] else [Msg(ms[0])] + Msgs(ms[1..])
  }

  /** The reply for a stored ProtocolError, if there is one. */
  function ErrorPart(e: Option<seq<Byte>>): seq<Reply>
  {
    if e.Some? then [Fault(e.value)] else []
  }

  /** No reply in `rs` is b"". */
  predicate NoEmptyReply(rs: seq<Reply>)
  {
    forall i :: 0 <= i < |rs| ==> rs[i] != Msg([])
  }

  /** Losing the first reply keeps the others non-empty. */
  lemma NoEmptyReplyTail(rs: seq<Reply>)
    requires rs != [] && NoEmptyReply(rs)
    ensures NoEmptyReply(rs[1..])
  {
    forall i | 0 <= i < |rs| - 1
      ensures rs[1..][i] != Msg([])
    {
      assert rs[1..][i] == rs[i + 1];
    }
  }

  lemma {:induction false} OutcomesAppend(a: seq<seq<Byte>>, b: seq<seq<Byte>>)
    ensures Outcomes(a + b) == Outcomes(a) + Outcomes(b)
    decreases |a|
  {
    if a == [] {
      assert a + b == b;
    } else {
      assert (a + b)[1..] == a[1..] + b;
      OutcomesAppend(a[1..], b);
    }
  }

  /**
    flush reports the replies of the queued packets: the messages before the
    first bad packet, that packet's ProtocolError, then the packets left.
   */
  lemma {:induction false} FlushOutcomes(ps: seq<seq<Byte>>)
    ensures var (ms, bad, rest) := EarlySlip.Flushing(ps);
            Outcomes(ps) == Msgs(ms) + ErrorPart(bad) + Outcomes(rest)
    decreases |ps|, 1
  {
    if ps != [] {
      if EarlySlip.Decode(ps[0]).Message? {
        FlushOutcomesMessage(ps);
      } else {
        FlushOutcomesError(ps);
      }
    }
  }

  /** The case of FlushOutcomes where the first packet decodes. */
  lemma {:induction false} FlushOutcomesMessage(ps: seq<seq<Byte>>)
    requires ps != [] && EarlySlip.Decode(ps[0]).Message?
    ensures var (ms, bad, rest) := EarlySlip.Flushing(ps);
            Outcomes(ps) == Msgs(ms) + ErrorPart(bad) + Outcomes(rest)
    decreases |ps|, 0
  {
    var m := EarlySlip.Decode(ps[0]).msg;
    var f := EarlySlip.Flushing(ps[1..]);
    FlushOutcomes(ps[1..]);
    assert Outcomes(ps) == [Msg(m)] + Outcomes(ps[1..]);
    assert EarlySlip.Flushing(ps) == ([m] + f.0, f.1, f.2);
    MessageFirst(m, f.0, ErrorPart(f.1), Outcomes(f.2));
  }

  /** A message in front of the flushed messages is the first reply. */
  lemma MessageFirst(m: seq<Byte>, ms: seq<seq<Byte>>, err: seq<Reply>, left: seq<Reply>)
    ensures Msgs([m] + ms) + err + left == [Msg(m)] + (Msgs(ms) + err + left)
  {
    assert ([m] + ms)[1..] == ms;
  }

  /** The case of FlushOutcomes where the first packet raises. */
  lemma FlushOutcomesError(ps: seq<seq<Byte>>)
    requires ps != [] && EarlySlip.Decode(ps[0]).ProtocolError?
    ensures var (ms, bad, rest) := EarlySlip.Flushing(ps);
            Outcomes(ps) == Msgs(ms) + ErrorPart(bad) + Outcomes(rest)
  {
    var p := EarlySlip.Decode(ps[0]).packet;
    assert Outcomes(ps) == [Fault(p)] + Outcomes(ps[1..]);
    assert EarlySlip.Flushing(ps) == ([], Some(p), ps[1..]);
    assert Msgs([]) + ErrorPart(Some(p)) == [Fault(p)];
  }

  /** Packets that are non-empty and END-free never give the reply b"". */
  lemma {:induction false} OutcomesNotEmpty(ps: seq<seq<Byte>>)
    requires forall i :: 0 <= i < |ps| ==> ps[i] != [] && END !in ps[i]
    ensures NoEmptyReply(Outcomes(ps))
    decreases |ps|
  {
    if ps != [] {
      OutcomesNotEmpty(ps[1..]);
      EarlySlip.DecodeIsLegacy(ps[0]);
      StripEndShape(ps[0]);
      Slip.DecodeNonEmpty(ps[0]);
    }
  }

  /** The receiving state of an earlier Driver whose queue is empty, as the current Driver sees it. */
  function Rx(buffer: seq<Byte>): FrameEngine.RxState
  {
    FrameEngine.RxState([], buffer, false)
  }

  /**
    One read-and-receive step: what the stream had pending is what this
    receive queues, then, unless the chunk was the empty one, what the rest of
    the stream has pending.
   */
  lemma PendingReceive(buffer: seq<Byte>, chunks: seq<seq<Byte>>, data: seq<Byte>, rest: seq<seq<Byte>>)
    requires END !in buffer
    requires (chunks == [] && data == [] && rest == []) || (chunks != [] && data == chunks[0] && rest == chunks[1..])
    ensures var (b, q) := EarlySlip.Collect(buffer, [], data);
            MessageWrapper.Pending(Rx(buffer), chunks) ==
              q + (if data == [] then [] else MessageWrapper.Pending(Rx(b), rest))
  {
    var (b, q) := EarlySlip.Collect(buffer, [], data);
    EarlySlip.CollectIsFeed(buffer, [], data, false);
    var st1 := FrameEngine.Feed(Rx(buffer), data);
    assert st1 == FrameEngine.RxState(q, b, data == []);
    if data != [] {
      MessageWrapper.PendingShift(Rx(b), q, rest);
      assert Rx(b).(packets := q + Rx(b).packets) == st1;
    }
  }

  /** The replies of one read-and-receive step, as the Future accounts for them. */
  lemma ReceiveFuture(buffer: seq<Byte>, chunks: seq<seq<Byte>>, data: seq<Byte>, rest: seq<seq<Byte>>)
    requires END !in buffer
    requires (chunks == [] && data == [] && rest == []) || (chunks != [] && data == chunks[0] && rest == chunks[1..])
    ensures var (b, q) := EarlySlip.Collect(buffer, [], data);
            var (ms, bad, left) := EarlySlip.Flushing(q);
            Outcomes(MessageWrapper.Pending(Rx(buffer), chunks)) ==
              Msgs(ms) + ErrorPart(bad) + Outcomes(left) +
              (if data == [] then [] else Outcomes(MessageWrapper.Pending(Rx(b), rest)))
    ensures data == [] ==> EarlySlip.Flushing(EarlySlip.Collect(buffer, [], data).1).2 == []
  {
    var (b, q) := EarlySlip.Collect(buffer, [], data);
    PendingReceive(buffer, chunks, data, rest);
    var tail := if data == [] then [] else MessageWrapper.Pending(Rx(b), rest);
    OutcomesAppend(q, tail);
    FlushOutcomes(q);
    if data == [] {
      EarlySlip.CollectEndOfStream(buffer, []);
      EarlySlip.FlushingSpec(q);
    }
  }

  /** The replies still to come from the stream: none once it is closed. */
  ghost function Tail(streamClosed: bool, buffer: seq<Byte>, incoming: seq<seq<Byte>>): seq<Reply>
  {
    if streamClosed then [] else Outcomes(MessageWrapper.Pending(Rx(buffer), incoming))
  }

  /**
    The replies a wrapper is bound to give: its stored messages, its stored
    error, the replies of the packets queued in its Driver, then what the
    stream still has pending.
   */
  function FutureOf(messages: seq<seq<Byte>>, protocolError: Option<seq<Byte>>, queued: seq<Reply>,
                    tail: seq<Reply>): seq<Reply>
  {
    Msgs(messages) + (ErrorPart(protocolError) + (queued + tail))
  }

  /** With nothing stored, the Future is the queued replies, then the stream's. */
  lemma NothingStored(queued: seq<Reply>, tail: seq<Reply>)
    ensures FutureOf([], None, queued, tail) == queued + tail
  {
    assert Msgs([]) == [] && ErrorPart(None) == [];
  }

  /**
    Decoding queued packets whose replies are `queued` into messages `ms`, an
    error `bad` and the packets left, whose replies are `left`, keeps the Future.
   */
  lemma Regroup(queued: seq<Reply>, ms: seq<seq<Byte>>, bad: Option<seq<Byte>>, left: seq<Reply>, tail: seq<Reply>)
    requires queued == Msgs(ms) + ErrorPart(bad) + left
    ensures FutureOf([], None, queued, tail) == FutureOf(ms, bad, left, tail)
  {
    NothingStored(queued, tail);
    AppendAssoc(Msgs(ms) + ErrorPart(bad), left, tail);
    AppendAssoc(Msgs(ms), ErrorPart(bad), left + tail);
  }

  /**
    Reading a chunk whose replies, with those of the rest of the stream, are
    `pending`, into messages `ms`, an error `bad`, the packets left (replies
    `left`) and the rest of the stream (replies `tail`), keeps the Future.
   */
  lemma ReadRegroup(pending: seq<Reply>, ms: seq<seq<Byte>>, bad: Option<seq<Byte>>, left: seq<Reply>, tail: seq<Reply>)
    requires pending == Msgs(ms) + ErrorPart(bad) + left + tail
    ensures FutureOf([], None, [], pending) == FutureOf(ms, bad, left, tail)
  {
    NothingStored([], pending);
    assert [] + pending == pending;
    AppendAssoc(Msgs(ms) + ErrorPart(bad), left, tail);
    AppendAssoc(Msgs(ms), ErrorPart(bad), left + tail);
  }

  /** Returning the oldest stored message takes the first reply. */
  lemma FuturePopMessage(messages: seq<seq<Byte>>, protocolError: Option<seq<Byte>>, queued: seq<Reply>, tail: seq<Reply>)
    requires messages != []
    ensures var f := FutureOf(messages, protocolError, queued, tail);
            f != [] && f[0] == Msg(messages[0]) && FutureOf(messages[1..], protocolError, queued, tail) == f[1..]
  {
    var t := ErrorPart(protocolError) + (queued + tail);
    assert FutureOf(messages, protocolError, queued, tail) == [Msg(messages[0])] + (Msgs(messages[1..]) + t);
  }

  /** Raising the stored error, with no message stored, takes the first reply. */
  lemma FuturePopError(packet: seq<Byte>, queued: seq<Reply>, tail: seq<Reply>)
    ensures var f := FutureOf([], Some(packet), queued, tail);
            f != [] && f[0] == Fault(packet) && FutureOf([], None, queued, tail) == f[1..]
  {
    assert FutureOf([], Some(packet), queued, tail) == [Fault(packet)] + (queued + tail);
  }

  class SlipWrapper {
    const driver: EarlySlip.Driver
    /** Messages decoded but not yet returned, oldest first. */
    var messages: seq<seq<Byte>>
    /** The packet of the ProtocolError waiting to be raised, if any. */
    var protocolError: Option<seq<Byte>>
    var flushNeeded: bool
    var streamClosed: bool
    /** What recv_bytes will still return, in order; after them it returns the empty chunk. */
    var incoming: seq<seq<Byte>>
    /** What send_bytes was given, in order. */
    var sent: seq<seq<Byte>>

    /** The replies this wrapper is bound to give, in order. */
    ghost function Future(): seq<Reply>
      reads this, driver
    {
      FutureOf(messages, protocolError, Outcomes(driver.packets), Tail(streamClosed, driver.recvBuffer, incoming))
    }

    /**
      Packets wait in the Driver only while a flush is due or an error is
      stored, never both, and none once the stream is closed.
     */
    ghost predicate Valid()
      reads this, driver
    {
      driver.Valid() &&
      (driver.packets != [] ==> flushNeeded || protocolError.Some?) &&
      !(flushNeeded && protocolError.Some?) &&
      (streamClosed ==> driver.packets == []) &&
      NoEmptyReply(Future())
    }

    constructor(stream: seq<seq<Byte>>)
      ensures Valid() && fresh(driver)
      ensures messages == [] && protocolError == None && !flushNeeded && !streamClosed
      ensures incoming == stream && sent == []
      ensures Future() == Outcomes(MessageWrapper.Pending(Rx([]), stream))
    {
      driver := new EarlySlip.Driver();
      messages := [];
      protocolError := None;
      flushNeeded := false;
      streamClosed := false;
      incoming := stream;
      sent := [];
      new;
      MessageWrapper.PendingWellFormed(Rx([]), stream);
      OutcomesNotEmpty(MessageWrapper.Pending(Rx([]), stream));
    }

    /** recv_bytes: the next chunk, or the empty chunk once the stream is exhausted. */
    method RecvBytes() returns (data: seq<Byte>)
      modifies this
      ensures old(incoming) == [] ==> data == [] && incoming == []
      ensures old(incoming) != [] ==> data == old(incoming)[0] && incoming == old(incoming)[1..]
      ensures messages == old(messages) && protocolError == old(protocolError)
      ensures flushNeeded == old(flushNeeded) && streamClosed == old(streamClosed) && sent == old(sent)
    {
      if incoming == [] {
        data := [];
      } else {
        data := incoming[0];
        incoming := incoming[1..];
      }
    }

    /** send_msg(message): exactly what the Driver's send gives is passed to send_bytes, once. */
    method SendMsg(message: seq<Byte>)
      modifies this
      ensures sent == old(sent) + [EarlySlip.Encode(message)]
      ensures messages == old(messages) && protocolError == old(protocolError) && incoming == old(incoming)
      ensures flushNeeded == old(flushNeeded) && streamClosed == old(streamClosed)
    {
      var packet := driver.Send(message);
      sent := sent + [packet];
    }

    /** self._messages.popleft(): the oldest stored message, which is the first reply. */
    method PopMessage() returns (r: Reply)
      requires Valid() && messages != []
      modifies this
      ensures Valid() && old(Future()) != [] && r == old(Future())[0] && Future() == old(Future())[1..]
      ensures r == Msg(old(messages)[0]) && messages == old(messages)[1..]
      ensures protocolError == old(protocolError) && flushNeeded == old(flushNeeded) && streamClosed == old(streamClosed)
      ensures incoming == old(incoming) && sent == old(sent)
    {
      FuturePopMessage(messages, protocolError, Outcomes(driver.packets), Tail(streamClosed, driver.recvBuffer, incoming));
      r := Msg(messages[0]);
      messages := messages[1..];
    }

    /**
      _handle_pending_protocol_error: raise the stored error, which is the
      first reply once no message is stored, clear it, and ask for a flush.
     */
    method HandlePendingProtocolError() returns (r: Reply)
      requires Valid() && messages == [] && protocolError.Some?
      modifies this
      ensures Valid() && old(Future()) != [] && r == old(Future())[0] && Future() == old(Future())[1..]
      ensures r == Fault(old(protocolError).value)
      ensures protocolError == None && flushNeeded
      ensures messages == old(messages) && streamClosed == old(streamClosed)
      ensures incoming == old(incoming) && sent == old(sent)
    {
      ghost var queued, tail := Outcomes(driver.packets), Tail(streamClosed, driver.recvBuffer, incoming);
      FuturePopError(protocolError.value, queued, tail);
      NoEmptyReplyTail(Future());
      r := Fault(protocolError.value);
      protocolError := None;
      flushNeeded := true;
      assert Future() == FutureOf([], None, queued, tail);
    }

    /**
      What the loop in recv_msg does with the result of a flush or receive:
      the messages are kept; on a ProtocolError, the messages the Driver
      decoded before it are kept and the error is stored.
     */
    method Absorb(res: EarlySlip.Flushed)
      modifies this, driver
      ensures res.Done? ==> messages == old(messages) + res.msgs && protocolError == old(protocolError)
      ensures res.Failed? ==> messages == old(messages) + old(driver.messages) && protocolError == Some(res.packet)
      ensures driver.packets == old(driver.packets) && driver.recvBuffer == old(driver.recvBuffer)
      ensures flushNeeded == old(flushNeeded) && streamClosed == old(streamClosed)
      ensures incoming == old(incoming) && sent == old(sent)
    {
      match res {
        case Done(ms) =>
          messages := messages + ms;
        case Failed(p) =>
          var ms := driver.TakeMessages();
          messages := messages + ms;
          protocolError := Some(p);
      }
    }

    /** The loop step of recv_msg that flushes the Driver. */
    method FlushStep()
      requires Valid() && messages == [] && protocolError == None && !streamClosed && flushNeeded
      modifies this, driver
      ensures Valid() && Future() == old(Future())
      ensures !flushNeeded && !streamClosed && incoming == old(incoming) && sent == old(sent)
    {
      flushNeeded := false;
      ghost var ps := driver.packets;
      ghost var fl := EarlySlip.Flushing(ps);
      ghost var tail := Tail(streamClosed, driver.recvBuffer, incoming);
      FlushOutcomes(ps);
      EarlySlip.FlushingRest(ps);
      Regroup(Outcomes(ps), fl.0, fl.1, Outcomes(fl.2), tail);
      var res := driver.Flush();
      assert [] + fl.0 == fl.0;
      Absorb(res);
      assert driver.packets == fl.2 && messages == fl.0 && protocolError == fl.1;
      assert Future() == FutureOf(fl.0, fl.1, Outcomes(fl.2), tail);
    }

    /** The loop step of recv_msg that reads a chunk and receives it; the empty chunk closes the stream. */
    method ReadStep()
      requires Valid() && messages == [] && protocolError == None && !streamClosed && !flushNeeded
      modifies this, driver
      ensures Valid() && Future() == old(Future())
      ensures !flushNeeded && sent == old(sent)
      ensures streamClosed || (|incoming| < |old(incoming)|)
    {
      ghost var buffer, chunks := driver.recvBuffer, incoming;
      var data := RecvBytes();
      ReceiveFuture(buffer, chunks, data, incoming);
      ghost var c := EarlySlip.Collect(buffer, [], data);
      ghost var fl := EarlySlip.Flushing(c.1);
      EarlySlip.FlushingRest(c.1);
      ReadRegroup(Tail(false, buffer, chunks), fl.0, fl.1, Outcomes(fl.2), Tail(data == [], c.0, incoming));
      if data == [] {
        streamClosed := true;
      }
      var res := driver.Receive(data);
      assert [] + fl.0 == fl.0;
      Absorb(res);
      assert driver.recvBuffer == c.0 && driver.packets == fl.2 && streamClosed == (data == []);
      assert messages == fl.0 && protocolError == fl.1;
      assert Future() == FutureOf(fl.0, fl.1, Outcomes(fl.2), Tail(data == [], c.0, incoming));
    }

    /**
      recv_msg: the first reply of the Future, which loses it; b"" when the
      Future is empty, and only then, with no message pending, no error stored
      and the stream closed.  A closed stream is not read again.
     */
    method RecvMsg() returns (r: Reply)
      requires Valid()
      modifies this, driver
      ensures Valid() && sent == old(sent)
      ensures old(Future()) == [] ==> r == Msg([]) && Future() == []
      ensures old(Future()) != [] ==> r == old(Future())[0] && Future() == old(Future())[1..]
      ensures r == Msg([]) <==> old(Future()) == []
      ensures r == Msg([]) ==> messages == [] && protocolError == None && streamClosed
      ensures old(streamClosed) ==> incoming == old(incoming)
    {
      ghost var f0 := Future();
      if messages != [] {
        r := PopMessage();
        return;
      }
      if protocolError.Some? {
        r := HandlePendingProtocolError();
        return;
      }
      while messages == [] && !streamClosed
        invariant Valid() && sent == old(sent) && Future() == f0
        invariant old(streamClosed) ==> incoming == old(incoming)
        invariant protocolError == None
        decreases if streamClosed then 0 else 1, |incoming|, if flushNeeded then 1 else 0
      {
        if flushNeeded {
          FlushStep();
        } else {
          ReadStep();
        }
        if protocolError.Some? {
          break;
        }
      }
      if messages != [] {
        r := PopMessage();
      } else if protocolError.Some? {
        r := HandlePendingProtocolError();
      } else {
        r := Msg([]);
        assert f0 == [];
      }
    }
  }
}
