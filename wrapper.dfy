/**
  The message interface of the current library: class SlipWrapper of
  src/sliplib/slipwrapper.py, which drives a Driver from a byte stream.  The
  stream is abstract: recv_bytes hands out a finite sequence of chunks and
  then the empty chunk that marks its end, and send_bytes records what it is
  given.  Recv is the meaning of recv_msg; Pending is the sequence of packets
  the wrapper is bound to deliver, and the lemmas prove that recv_msg delivers
  them one by one, whatever the chunking of the stream.
 */
module MessageWrapper {
  import opened SlipBytes
  import Slip
  import SlipConfig
  import opened FrameEngine

  /**
    recv_msg on receiving state `st` with `chunks` still to come from the
    stream: get(block=False) until it gives something other than None,
    reading one chunk (the empty chunk once the stream is exhausted) and
    receiving it before each retry.  The result is what get gave, the new
    receiving state and the chunks not read.
   */
  function Recv(st: RxState, chunks: seq<seq<Byte>>): (r: (Got, RxState, seq<seq<Byte>>))
    ensures r.0 != Nothing
    ensures |r.2| <= |chunks|
    decreases |chunks|, if st.finished then 0 else 1
  {
    var (g, st1) := Take(st);
    if g != Nothing then (g, st1, chunks)
    else if chunks == [] then Recv(Feed(st1, []), [])
    else Recv(Feed(st1, chunks[0]), chunks[1..])
  }

  /**
    The packets still to be delivered: those queued, then those that receiving
    the rest of the stream up to its end will queue.
   */
  function Pending(st: RxState, chunks: seq<seq<Byte>>): seq<seq<Byte>>
    decreases |chunks|, if st.finished then 0 else 1
  {
    if st.finished then st.packets
    else if chunks == [] then Pending(Feed(st, []), [])
    else Pending(Feed(st, chunks[0]), chunks[1..])
  }

  /** Packets queued in front of a state stay in front of what it has pending. */
  lemma {:induction false} PendingShift(st: RxState, pre: seq<seq<Byte>>, chunks: seq<seq<Byte>>)
    ensures Pending(st.(packets := pre + st.packets), chunks) == pre + Pending(st, chunks)
    decreases |chunks|, if st.finished then 0 else 1
  {
    var st' := st.(packets := pre + st.packets);
    if !st.finished {
      var d := if chunks == [] then [] else chunks[0];
      var rest := if chunks == [] then [] else chunks[1..];
      assert Feed(st', d) == Feed(st, d).(packets := pre + Feed(st, d).packets);
      PendingShift(Feed(st, d), pre, rest);
    }
  }

  /**
    recv_msg delivers the pending packets in order: the result is the decoded
    first pending packet (its ProtocolError if it is invalid) and the rest
    stays pending; with nothing pending it is b"" and nothing ever will be.
   */
  lemma {:induction false} RecvPending(st: RxState, chunks: seq<seq<Byte>>)
    requires WellFormed(st)
    ensures var (g, st', chunks') := Recv(st, chunks);
            var p := Pending(st, chunks);
            if p == [] then g == Msg([]) && Pending(st', chunks') == []
            else g == GotOf(Slip.Decode(p[0])) && Pending(st', chunks') == p[1..]
    decreases |chunks|, if st.finished then 0 else 1
  {
    var (g, st1) := Take(st);
    if st.packets != [] {
      var tail := st.(packets := st.packets[1..]);
      PendingShift(tail, [st.packets[0]], chunks);
      assert tail.(packets := [st.packets[0]] + tail.packets) == st;
    } else if !st.finished {
      var d := if chunks == [] then [] else chunks[0];
      var rest := if chunks == [] then [] else chunks[1..];
      FeedWellFormed(st, d);
      RecvPending(Feed(st, d), rest);
    }
  }

  /** recv_msg answers b"" exactly when nothing is pending, so b"" always means the end of the stream. */
  lemma RecvEmptyMeansEnd(st: RxState, chunks: seq<seq<Byte>>)
    requires WellFormed(st)
    ensures Recv(st, chunks).0 == Msg([]) <==> Pending(st, chunks) == []
  {
    RecvPending(st, chunks);
    var p := Pending(st, chunks);
    if p != [] {
      PendingWellFormed(st, chunks);
      Slip.DecodeNonEmpty(p[0]);
    }
  }

  /** Pending packets are non-empty and END-free. */
  lemma {:induction false} PendingWellFormed(st: RxState, chunks: seq<seq<Byte>>)
    requires WellFormed(st)
    ensures forall i :: 0 <= i < |Pending(st, chunks)| ==> Pending(st, chunks)[i] != [] && END !in Pending(st, chunks)[i]
    decreases |chunks|, if st.finished then 0 else 1
  {
    if !st.finished {
      var d := if chunks == [] then [] else chunks[0];
      var rest := if chunks == [] then [] else chunks[1..];
      FeedWellFormed(st, d);
      PendingWellFormed(Feed(st, d), rest);
    }
  }

  /** With a packet already queued, recv_msg reads nothing from the stream. */
  lemma RecvQueuedReadsNothing(st: RxState, chunks: seq<seq<Byte>>)
    requires st.packets != []
    ensures Recv(st, chunks).2 == chunks
    ensures Recv(st, chunks).0 == GotOf(Slip.Decode(st.packets[0]))
  {
  }

  /** The packets that end-of-stream leaves after receiving `bytes` in one call and then the empty chunk. */
  function EndOfStream(st: RxState, bytes: seq<Byte>): seq<seq<Byte>>
  {
    if bytes == [] then Feed(st, []).packets else Feed(Feed(st, bytes), []).packets
  }

  /** What is pending depends only on the bytes of the stream, not on how they are chunked. */
  lemma {:induction false} PendingFlatten(st: RxState, chunks: seq<seq<Byte>>)
    requires !st.finished
    requires forall i :: 0 <= i < |chunks| ==> chunks[i] != []
    ensures Pending(st, chunks) == EndOfStream(st, Flatten(chunks))
    decreases |chunks|
  {
    if chunks != [] {
      var c, rest := chunks[0], chunks[1..];
      var st1 := Feed(st, c);
      PendingFlatten(st1, rest);
      if rest == [] {
        assert Flatten(chunks) == c + [];
        assert c + [] == c;
      } else {
        assert Flatten(rest) == rest[0] + Flatten(rest[1..]);
        FeedCompose(st, c, Flatten(rest));
      }
    }
  }

  /** Reading the stream one byte at a time or in any non-empty chunks leaves the same packets pending. */
  lemma PendingChunking(st: RxState, chunks: seq<seq<Byte>>)
    requires !st.finished
    requires forall i :: 0 <= i < |chunks| ==> chunks[i] != []
    ensures Pending(st, chunks) == Pending(st, Singletons(Flatten(chunks)))
  {
    PendingFlatten(st, chunks);
    PendingFlatten(st, Singletons(Flatten(chunks)));
    FlattenSingletons(Flatten(chunks));
  }

  /**
    A stream carrying what a Driver sent for `msgs`, cut into any non-empty
    chunks, leaves exactly the packets of the non-empty messages pending.
   */
  lemma PendingWire(prefix: seq<Byte>, msgs: seq<seq<Byte>>, chunks: seq<seq<Byte>>)
    requires IsPrefix(prefix)
    requires forall i :: 0 <= i < |chunks| ==> chunks[i] != []
    requires Flatten(chunks) == Wire(prefix, msgs)
    ensures Pending(Fresh, chunks) == Packets(msgs)
  {
    PendingFlatten(Fresh, chunks);
    if msgs == [] {
      assert Feed(Fresh, []).packets == [];
    } else {
      FeedWire(Fresh, prefix, msgs);
      assert Wire(prefix, msgs) == Frame(prefix, msgs[0]) + Wire(prefix, msgs[1..]);
      var st := Feed(Fresh, Wire(prefix, msgs));
      FeedWellFormed(Fresh, Wire(prefix, msgs));
      FeedEndOfStream(st);
      assert [] + Packets(msgs) == Packets(msgs);
    }
  }

  /** Why an iteration over the wrapper stopped. */
  datatype Stop = Exhausted | Raised(packet: seq<Byte>)

  /**
    Iterating over decoded packets `ps`: the messages yielded, why it stopped,
    and the packets left.  A ProtocolError ends the iteration after removing
    its packet.
   */
  function Iteration(ps: seq<seq<Byte>>): (seq<seq<Byte>>, Stop, seq<seq<Byte>>)
    decreases |ps|
  {
    if ps == [] then ([], Exhausted, [])
    else match Slip.Decode(ps[0])
      case ProtocolError(p) => ([], Raised(p), ps[1..])
      case Message(m) =>
        var (ms, s, rest) := Iteration(ps[1..]);
        ([m] + ms, s, rest)
  }

  /** Iterating over the packets of a wire yields its non-empty messages, in order, to the end. */
  lemma {:induction false} IterationWire(msgs: seq<seq<Byte>>)
    ensures Iteration(Packets(msgs)) == (NonEmpty(msgs), Exhausted, [])
    decreases |msgs|
  {
    if msgs != [] {
      IterationWire(msgs[1..]);
      Slip.DecodeEncode(msgs[0]);
      if msgs[0] == [] {
        assert Packets(msgs) == Packets(msgs[1..]);
        assert NonEmpty(msgs) == NonEmpty(msgs[1..]);
      } else {
        var ps := Packets(msgs);
        assert ps == [Slip.Encode(msgs[0])] + Packets(msgs[1..]);
        assert ps[0] == Slip.Encode(msgs[0]) && ps[1..] == Packets(msgs[1..]);
      }
    }
  }

  /** An iteration stopped by a ProtocolError leaves the packets after the bad one for the next iteration. */
  lemma {:induction false} IterationResumes(ps: seq<seq<Byte>>, good: seq<seq<Byte>>, bad: seq<Byte>)
    requires forall i :: 0 <= i < |good| ==> Slip.Decode(good[i]).Message?
    requires !Slip.IsValid(bad)
    ensures Iteration(good + [bad] + ps).1 == Raised(bad)
    ensures Iteration(good + [bad] + ps).2 == ps
    decreases |good|
  {
    if good == [] {
      assert good + [bad] + ps == [bad] + ps;
    } else {
      assert (good + [bad] + ps)[1..] == good[1..] + [bad] + ps;
      IterationResumes(ps, good[1..], bad);
    }
  }

  class SlipWrapper {
    const driver: Driver
    /** What recv_bytes will still return, in order; after them it returns the empty chunk. */
    var incoming: seq<seq<Byte>>
    /** What send_bytes was given, in order. */
    var sent: seq<seq<Byte>>

    ghost predicate Valid()
      reads this, driver
    {
      driver.Valid()
    }

    /** SlipWrapper(stream): a new Driver, under the configuration as it is now. */
    constructor(config: SlipConfig.Configuration, stream: seq<seq<Byte>>)
      ensures Valid() && fresh(driver)
      ensures driver.State() == Fresh
      ensures driver.prefix == if config.useLeadingEndByte then [END] else []
      ensures incoming == stream && sent == []
    {
      driver := new Driver(config);
      incoming := stream;
      sent := [];
    }

    /** recv_bytes: the next chunk, or the empty chunk once the stream is exhausted. */
    method RecvBytes() returns (data: seq<Byte>)
      modifies this
      ensures old(incoming) == [] ==> data == [] && incoming == []
      ensures old(incoming) != [] ==> data == old(incoming)[0] && incoming == old(incoming)[1..]
      ensures sent == old(sent)
    {
      if incoming == [] {
        data := [];
      } else {
        data := incoming[0];
        incoming := incoming[1..];
      }
    }

    /** send_bytes: the packet goes out on the stream. */
    method SendBytes(packet: seq<Byte>)
      modifies this
      ensures sent == old(sent) + [packet] && incoming == old(incoming)
    {
      sent := sent + [packet];
    }

    /** send_msg(message): exactly what the Driver's send gives is passed to send_bytes, once. */
    method SendMsg(message: seq<Byte>)
      requires Valid()
      modifies this
      ensures Valid()
      ensures sent == old(sent) + [Frame(driver.prefix, message)] && incoming == old(incoming)
    {
      var packet := driver.Send(message);
      SendBytes(packet);
    }

    /** recv_msg: see Recv. */
    method RecvMsg() returns (r: Got)
      requires Valid()
      modifies this, driver
      ensures Valid() && sent == old(sent)
      ensures (r, driver.State(), incoming) == Recv(old(driver.State()), old(incoming))
    {
      ghost var st0, in0 := driver.State(), incoming;
      r := driver.Get();
      while r == Nothing
        invariant Valid() && sent == old(sent)
        invariant r == Nothing ==> driver.packets == [] && !driver.finished
        invariant Recv(st0, in0) == if r == Nothing then Recv(driver.State(), incoming) else (r, driver.State(), incoming)
        decreases |incoming|, if driver.finished then 0 else 1
      {
        var data := RecvBytes();
        driver.Receive(data);
        r := driver.Get();
      }
    }

    /** The packets this wrapper is bound to deliver. */
    ghost function PendingPackets(): seq<seq<Byte>>
      reads this, driver
    {
      Pending(driver.State(), incoming)
    }

    /**
      for msg in wrapper: messages until recv_msg gives b"", or until a
      ProtocolError escapes; the packets after the bad one stay pending.
     */
    method Iterate() returns (msgs: seq<seq<Byte>>, stop: Stop)
      requires Valid()
      modifies this, driver
      ensures Valid() && sent == old(sent)
      ensures (msgs, stop, PendingPackets()) == Iteration(old(PendingPackets()))
    {
      msgs := [];
      ghost var p0 := PendingPackets();
      assert [] + Iteration(p0).0 == Iteration(p0).0;
      while true
        invariant Valid() && sent == old(sent)
        invariant var (ms, s, rest) := Iteration(PendingPackets()); Iteration(p0) == (msgs + ms, s, rest)
        decreases |PendingPackets()|
      {
        ghost var st, chunks := driver.State(), incoming;
        ghost var p := PendingPackets();
        RecvPending(st, chunks);
        RecvEmptyMeansEnd(st, chunks);
        var r := RecvMsg();
        if r == Msg([]) {
          stop := Exhausted;
          assert p == [];
          assert msgs + [] == msgs;
          return;
        }
        assert p != [];
        match r {
          case Nothing =>
            assert false;
          case Fault(packet) =>
            stop := Raised(packet);
            assert msgs + [] == msgs;
            return;
          case Msg(m) =>
            var (ms, s, rest) := Iteration(p[1..]);
            assert Iteration(p) == ([m] + ms, s, rest);
            assert msgs + [m] + ms == msgs + ([m] + ms);
            msgs := msgs + [m];
        }
      }
    }
  }
}
