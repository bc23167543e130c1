/**
  The frame engine of the current library: class Driver of
  src/sliplib/slip.py.  A Driver keeps a receive buffer holding an unfinished
  packet, a FIFO of complete raw packets and a flag telling whether the end of
  the stream was seen.  Feed and Take are the meaning of receive and get on
  an abstract RxState; the Driver's methods are proved to follow them, and
  the lemmas state what receiving and getting do over whole streams.
 */
module FrameEngine {
  import opened SlipBytes
  import Slip
  import SlipConfig

  /** What get(block=False) gives: None, a message (b"" once the stream ended), or a raised ProtocolError. */
  datatype Got = Nothing | Msg(msg: seq<Byte>) | Fault(packet: seq<Byte>)

  /** The receiving state of a Driver: queued packets (oldest first), the receive buffer, the finished flag. */
  datatype RxState = RxState(packets: seq<seq<Byte>>, buffer: seq<Byte>, finished: bool)

  /** The state of a newly constructed Driver. */
  const Fresh := RxState([], [], false)

  /** The buffer holds no END, and every queued packet is non-empty and holds no END. */
  predicate WellFormed(st: RxState)
  {
    END !in st.buffer && forall i :: 0 <= i < |st.packets| ==> st.packets[i] != [] && END !in st.packets[i]
  }

  /**
    receive(data): empty data marks the end of the stream and is replaced by
    END; the data is appended to the buffer, leading END bytes are stripped,
    the result is split on runs of END, every piece but the last is queued and
    the last one becomes the buffer.
   */
  function Feed(st: RxState, data: seq<Byte>): RxState
  {
    var d := if data == [] then [END] else data;
    var pieces := SplitEndRuns(LStripEnd(st.buffer + d));
    RxState(st.packets + pieces[..|pieces| - 1], pieces[|pieces| - 1], st.finished || data == [])
  }

  /** The outcome of decoding a packet, as get reports it. */
  function GotOf(d: Slip.Decoded): Got
  {
    match d
    case Message(m) => Msg(m)
    case ProtocolError(p) => Fault(p)
  }

  /**
    get(block=False): the oldest queued packet leaves the queue and is decoded
    (its ProtocolError is raised if it is invalid); with an empty queue the
    answer is b"" after the end of the stream and None before it.
   */
  function Take(st: RxState): (Got, RxState)
  {
    if st.packets == [] then (if st.finished then Msg([]) else Nothing, st)
    else (GotOf(Slip.Decode(st.packets[0])), st.(packets := st.packets[1..]))
  }

  // ---------------------------------------------------------------------------
  // receive
  // ---------------------------------------------------------------------------

  /** The pieces that receive queues are non-empty and END-free, and so is the new buffer. */
  lemma FeedPieces(s: seq<Byte>)
    requires s == [] || s[0] != END
    ensures var r := SplitEndRuns(s);
            END !in r[|r| - 1] &&
            forall i :: 0 <= i < |r| - 1 ==> r[i] != [] && END !in r[i]
  {
    SplitEndRunsPiecesEndFree(s);
    SplitEndRunsNonEmpty(s);
  }

  /** receive keeps the buffer and the queue well formed. */
  lemma FeedWellFormed(st: RxState, data: seq<Byte>)
    requires WellFormed(st)
    ensures WellFormed(Feed(st, data))
  {
    var d := if data == [] then [END] else data;
    FeedPieces(LStripEnd(st.buffer + d));
  }

  /** receive only appends to the queue; empty data and nothing else sets finished. */
  lemma FeedExtendsQueue(st: RxState, data: seq<Byte>)
    ensures var st' := Feed(st, data);
            |st'.packets| >= |st.packets| && st'.packets[..|st.packets|] == st.packets &&
            st'.finished == (st.finished || data == [])
  {
    var st' := Feed(st, data);
    assert st'.packets[..|st.packets|] == st.packets;
  }

  /** A string with no END at the front is left alone by LStripEnd. */
  lemma LStripEndNoLead(s: seq<Byte>)
    requires s == [] || s[0] != END
    ensures LStripEnd(s) == s
  {
  }

  /**
    Fragmentation invariance: receiving two non-empty chunks one after the
    other leaves the same state as receiving their concatenation.
   */
  lemma FeedCompose(st: RxState, d1: seq<Byte>, d2: seq<Byte>)
    requires d1 != [] && d2 != []
    ensures Feed(Feed(st, d1), d2) == Feed(st, d1 + d2)
  {
    var p1 := SplitEndRuns(LStripEnd(st.buffer + d1));
    var st1 := Feed(st, d1);
    FeedData(st, d1);
    FeedData(st1, d2);
    FeedData(st, d1 + d2);
    ComposePieces(st.buffer, d1, d2);
    QueueCompose(st, st1, p1[..|p1| - 1], SplitEndRuns(LStripEnd(st1.buffer + d2)), SplitEndRuns(LStripEnd(st.buffer + (d1 + d2))));
  }

  /** Queueing all but the last of `a + q` is queueing `a`, then all but the last of `q`. */
  lemma QueueCompose(st: RxState, st1: RxState, a: seq<seq<Byte>>, q: seq<seq<Byte>>, w: seq<seq<Byte>>)
    requires |q| >= 1 && w == a + q
    requires st1.packets == st.packets + a && st1.finished == st.finished
    ensures RxState(st1.packets + q[..|q| - 1], q[|q| - 1], st1.finished) ==
            RxState(st.packets + w[..|w| - 1], w[|w| - 1], st.finished)
  {
    assert w[..|w| - 1] == a + q[..|q| - 1];
    assert st.packets + a + q[..|q| - 1] == st.packets + (a + q[..|q| - 1]);
  }

  /** Receiving non-empty data queues all but the last piece of the stripped buffer and data, and keeps the last. */
  lemma FeedData(st: RxState, data: seq<Byte>)
    requires data != []
    ensures var pieces := SplitEndRuns(LStripEnd(st.buffer + data));
            Feed(st, data) == RxState(st.packets + pieces[..|pieces| - 1], pieces[|pieces| - 1], st.finished)
  {
  }

  /** The pieces of buffer + d1 + d2 are the complete pieces of buffer + d1, then the pieces of what remains + d2. */
  lemma ComposePieces(b: seq<Byte>, d1: seq<Byte>, d2: seq<Byte>)
    ensures var p1 := SplitEndRuns(LStripEnd(b + d1));
            SplitEndRuns(LStripEnd(b + (d1 + d2))) ==
              p1[..|p1| - 1] + SplitEndRuns(LStripEnd(p1[|p1| - 1] + d2))
  {
    var s1 := LStripEnd(b + d1);
    var p1 := SplitEndRuns(s1);
    var b1 := p1[|p1| - 1];
    assert b + (d1 + d2) == (b + d1) + d2;
    LStripEndAppend(b + d1, d2);
    if s1 == [] {
      assert p1 == [[]];
      assert b1 + d2 == d2;
    } else {
      SplitEndRunsAppend(s1, d2);
      if b1 == [] {
        assert b1 + d2 == d2;
      } else {
        SplitEndRunsPiecesEndFree(s1);
        assert END !in b1;
        LStripEndAppend(b1, d2);
        LStripEndNoLead(b1);
      }
    }
  }

  /** Receiving a sequence of chunks, one receive call per chunk. */
  function FeedAll(st: RxState, chunks: seq<seq<Byte>>): RxState
    decreases |chunks|
  {
    if chunks == [] then st else FeedAll(Feed(st, chunks[0]), chunks[1..])
  }

  /** Chunk boundaries do not matter: receiving non-empty chunks is receiving their concatenation at once. */
  lemma {:induction false} FeedAllFlatten(st: RxState, chunks: seq<seq<Byte>>)
    requires chunks != []
    requires forall i :: 0 <= i < |chunks| ==> chunks[i] != []
    ensures FeedAll(st, chunks) == Feed(st, Flatten(chunks))
    decreases |chunks|
  {
    if |chunks| == 1 {
      assert Flatten(chunks) == chunks[0] + Flatten([]);
      assert chunks[0] + [] == chunks[0];
    } else {
      var rest := chunks[1..];
      FeedAllFlatten(Feed(st, chunks[0]), rest);
      assert Flatten(rest) != [] by {
        assert Flatten(rest) == rest[0] + Flatten(rest[1..]);
      }
      FeedCompose(st, chunks[0], Flatten(rest));
    }
  }

  /** Receiving END-free bytes only extends the buffer. */
  lemma FeedEndFree(st: RxState, data: seq<Byte>)
    requires WellFormed(st) && data != [] && END !in data
    ensures Feed(st, data) == st.(buffer := st.buffer + data)
  {
    var s := st.buffer + data;
    assert END !in s;
    LStripEndNoLead(s);
    SplitEndRunsEndFree(s);
  }

  /** Receiving END after an END-free buffer queues the buffer, unless it is empty, and empties the buffer. */
  lemma FeedEnd(st: RxState)
    requires WellFormed(st)
    ensures Feed(st, [END]) == RxState(st.packets + (if st.buffer == [] then [] else [st.buffer]), [], st.finished)
  {
    var s := st.buffer + [END];
    if st.buffer == [] {
      assert LStripEnd(s) == LStripEnd([]);
    } else {
      LStripEndNoLead(s);
      SplitEndRunsDelimited(st.buffer);
    }
  }

  /**
    receive(b"") ends the stream: it sets finished and turns a pending partial
    packet into a queued one, as if END had arrived.
   */
  lemma FeedEndOfStream(st: RxState)
    requires WellFormed(st)
    ensures Feed(st, []) == RxState(st.packets + (if st.buffer == [] then [] else [st.buffer]), [], true)
  {
    FeedEnd(st);
  }

  /** One receive call per byte. */
  function Singletons(p: seq<Byte>): (r: seq<seq<Byte>>)
    ensures |r| == |p| && forall i :: 0 <= i < |p| ==> r[i] == [p[i]]
  {
    seq(|p|, i requires 0 <= i < |p| => [p[i]])
  }

  lemma {:induction false} FlattenSingletons(p: seq<Byte>)
    ensures Flatten(Singletons(p)) == p
    decreases |p|
  {
    if p != [] {
      assert Singletons(p)[1..] == Singletons(p[1..]);
      FlattenSingletons(p[1..]);
      assert p == [p[0]] + p[1..];
    }
  }

  /**
    Feeding a frame one byte at a time: while the END-free packet `p` arrives
    nothing is queued, so get gives None after every byte, and the END that
    closes it queues `p`.
   */
  lemma FeedBytewise(p: seq<Byte>, k: nat)
    requires END !in p && k <= |p|
    ensures FeedAll(Fresh, Singletons(p[..k])) == RxState([], p[..k], false)
    ensures Take(FeedAll(Fresh, Singletons(p[..k]))).0 == Nothing
    ensures FeedAll(Fresh, Singletons(p + [END])) == RxState(if p == [] then [] else [p], [], false)
  {
    if k > 0 {
      FeedAllFlatten(Fresh, Singletons(p[..k]));
      FlattenSingletons(p[..k]);
      FeedEndFree(Fresh, p[..k]);
      assert [] + p[..k] == p[..k];
    }
    var q := p + [END];
    FeedAllFlatten(Fresh, Singletons(q));
    FlattenSingletons(q);
    if p == [] {
      assert q == [END];
    } else {
      FeedEndFree(Fresh, p);
      assert [] + p == p;
      FeedCompose(Fresh, p, [END]);
      FeedEnd(Fresh.(buffer := p));
    }
  }

  // ---------------------------------------------------------------------------
  // get
  // ---------------------------------------------------------------------------

  /**
    On a well-formed state, get answers b"" exactly when the queue is empty
    and the stream has ended: a queued packet never decodes to b"".
   */
  lemma TakeEmptyMeansEnd(st: RxState)
    requires WellFormed(st)
    ensures Take(st).0 == Msg([]) <==> st.packets == [] && st.finished
    ensures Take(st).0 == Nothing <==> st.packets == [] && !st.finished
  {
    if st.packets != [] {
      Slip.DecodeNonEmpty(st.packets[0]);
    }
  }

  /** get keeps the state well formed and changes nothing but the queue. */
  lemma TakeWellFormed(st: RxState)
    requires WellFormed(st)
    ensures WellFormed(Take(st).1)
    ensures Take(st).1.buffer == st.buffer && Take(st).1.finished == st.finished
  {
  }

  /** `n` consecutive get calls. */
  function TakeN(st: RxState, n: nat): (seq<Got>, RxState)
    decreases n
  {
    if n == 0 then ([], st)
    else
      var (g, st1) := Take(st);
      var (gs, st2) := TakeN(st1, n - 1);
      ([g] + gs, st2)
  }

  /**
    Error isolation: `n` get calls on a queue of at least `n` packets decode
    exactly the first `n` packets, each on its own, in order, whether or not
    some of them raise, and leave the rest queued.
   */
  lemma {:induction false} TakeNInOrder(st: RxState, n: nat)
    requires n <= |st.packets|
    ensures |TakeN(st, n).0| == n
    ensures forall i :: 0 <= i < n ==> TakeN(st, n).0[i] == GotOf(Slip.Decode(st.packets[i]))
    ensures TakeN(st, n).1 == st.(packets := st.packets[n..])
    decreases n
  {
    if n > 0 {
      var st1 := Take(st).1;
      TakeNInOrder(st1, n - 1);
      assert st1.packets == st.packets[1..];
      assert st1.packets[n - 1..] == st.packets[n..];
    }
  }

  // ---------------------------------------------------------------------------
  // The wire
  // ---------------------------------------------------------------------------

  /** send(m): the prefix, the encoded message and a closing END. */
  function Frame(prefix: seq<Byte>, msg: seq<Byte>): seq<Byte>
  {
    prefix + Slip.Encode(msg) + [END]
  }

  /** The bytes a Driver with `prefix` sends for `msgs`, one send call after the other. */
  function Wire(prefix: seq<Byte>, msgs: seq<seq<Byte>>): seq<Byte>
    decreases |msgs|
  {
    if msgs == [] then [] else Frame(prefix, msgs[0]) + Wire(prefix, msgs[1..])
  }

  /** The packets the frames of `msgs` carry: empty messages have no packet. */
  function Packets(msgs: seq<seq<Byte>>): seq<seq<Byte>>
    decreases |msgs|
  {
    if msgs == [] then []
    else (if msgs[0] == [] then [] else [Slip.Encode(msgs[0])]) + Packets(msgs[1..])
  }

  /** The non-empty messages of `msgs`, in order. */
  function NonEmpty(msgs: seq<seq<Byte>>): seq<seq<Byte>>
    decreases |msgs|
  {
    if msgs == [] then [] else (if msgs[0] == [] then [] else [msgs[0]]) + NonEmpty(msgs[1..])
  }

  /** The two possible prefixes: nothing, or a leading END. */
  predicate IsPrefix(prefix: seq<Byte>)
  {
    prefix == [] || prefix == [END]
  }

  /** Receiving one frame with an empty buffer queues its packet, if it has one. */
  lemma FeedFrame(st: RxState, prefix: seq<Byte>, msg: seq<Byte>)
    requires WellFormed(st) && st.buffer == [] && IsPrefix(prefix)
    ensures Feed(st, Frame(prefix, msg)) ==
            st.(packets := st.packets + (if msg == [] then [] else [Slip.Encode(msg)]))
  {
    var e := Slip.Encode(msg);
    FrameStripped(prefix, msg);
    assert st.buffer + Frame(prefix, msg) == Frame(prefix, msg);
    if msg == [] {
      assert LStripEnd(e + [END]) == [];
    } else {
      LStripEndNoLead(e + [END]);
      SplitEndRunsDelimited(e);
    }
  }

  /** A frame's leading END, if any, is stripped like the one closing the packet; the packet holds no END. */
  lemma FrameStripped(prefix: seq<Byte>, msg: seq<Byte>)
    requires IsPrefix(prefix)
    ensures var e := Slip.Encode(msg);
            END !in e && (e == [] <==> msg == []) &&
            LStripEnd(Frame(prefix, msg)) == LStripEnd(e + [END])
  {
    EncodedPacket(msg);
    var x := Slip.Encode(msg) + [END];
    if prefix == [END] {
      assert Frame(prefix, msg) == [END] + x;
      assert ([END] + x)[1..] == x;
    } else {
      assert Frame(prefix, msg) == x;
    }
  }

  /** An encoded packet holds no END and is empty exactly when the message is. */
  lemma EncodedPacket(msg: seq<Byte>)
    ensures var e := Slip.Encode(msg); END !in e && (e == [] <==> msg == [])
  {
    Slip.EncodeEscapes(msg);
    Slip.EscapeIsWellEscaped(msg);
    Slip.EncodeLength(msg);
  }

  /**
    What one Driver sends, another receives: the concatenated output of send
    calls leaves the packets of the non-empty messages queued, in order, and
    nothing buffered.
   */
  lemma {:induction false} FeedWire(st: RxState, prefix: seq<Byte>, msgs: seq<seq<Byte>>)
    requires WellFormed(st) && st.buffer == [] && IsPrefix(prefix) && msgs != []
    ensures Feed(st, Wire(prefix, msgs)) == st.(packets := st.packets + Packets(msgs))
    decreases |msgs|
  {
    var f := Frame(prefix, msgs[0]);
    var pk := if msgs[0] == [] then [] else [Slip.Encode(msgs[0])];
    FeedFrame(st, prefix, msgs[0]);
    if |msgs| == 1 {
      assert Wire(prefix, msgs) == f by {
        assert Wire(prefix, msgs[1..]) == [];
      }
      assert Packets(msgs) == pk by {
        assert Packets(msgs[1..]) == [];
      }
    } else {
      var st1 := st.(packets := st.packets + pk);
      var rest := Wire(prefix, msgs[1..]);
      FeedWellFormed(st, f);
      FeedWire(st1, prefix, msgs[1..]);
      assert rest != [] by {
        assert rest == Frame(prefix, msgs[1]) + Wire(prefix, msgs[2..]);
      }
      assert f != [];
      FeedThenFeed(st, f, rest, pk, Packets(msgs[1..]));
      assert Wire(prefix, msgs) == f + rest;
      assert Packets(msgs) == pk + Packets(msgs[1..]);
    }
  }

  /** Two receives that each only queue packets, taken as one. */
  lemma FeedThenFeed(st: RxState, a: seq<Byte>, b: seq<Byte>, pa: seq<seq<Byte>>, pb: seq<seq<Byte>>)
    requires a != [] && b != []
    requires Feed(st, a) == st.(packets := st.packets + pa)
    requires Feed(st.(packets := st.packets + pa), b) == st.(packets := st.packets + pa + pb)
    ensures Feed(st, a + b) == st.(packets := st.packets + (pa + pb))
  {
    FeedCompose(st, a, b);
    assert st.packets + pa + pb == st.packets + (pa + pb);
  }

  /** Getting the packets of the wire decodes each to its message. */
  lemma {:induction false} DecodePackets(msgs: seq<seq<Byte>>)
    ensures |Packets(msgs)| == |NonEmpty(msgs)|
    ensures forall i :: 0 <= i < |Packets(msgs)| ==> Slip.Decode(Packets(msgs)[i]) == Slip.Message(NonEmpty(msgs)[i])
    decreases |msgs|
  {
    if msgs != [] {
      DecodePackets(msgs[1..]);
      Slip.DecodeEncode(msgs[0]);
    }
  }

  /**
    End to end: a fresh Driver that receives what another sent for `msgs`
    delivers the non-empty messages, in order, to the same number of get calls.
   */
  lemma WireDelivers(prefix: seq<Byte>, msgs: seq<seq<Byte>>)
    requires IsPrefix(prefix) && msgs != []
    ensures var st := Feed(Fresh, Wire(prefix, msgs));
            var n := |NonEmpty(msgs)|;
            n <= |st.packets| && |TakeN(st, n).0| == n &&
            forall i :: 0 <= i < n ==> TakeN(st, n).0[i] == Msg(NonEmpty(msgs)[i])
  {
    FeedWire(Fresh, prefix, msgs);
    var st := Feed(Fresh, Wire(prefix, msgs));
    assert st.packets == Packets(msgs);
    DecodePackets(msgs);
    TakeNInOrder(st, |NonEmpty(msgs)|);
  }

  // ---------------------------------------------------------------------------
  // The Driver
  // ---------------------------------------------------------------------------

  class Driver {
    /** END when the configuration asked for a leading END at construction, otherwise empty. */
    const prefix: seq<Byte>
    var finished: bool
    var recvBuffer: seq<Byte>
    /** The FIFO of complete raw packets, oldest first. */
    var packets: seq<seq<Byte>>

    /** The receiving state of this Driver. */
    function State(): RxState
      reads this
    {
      RxState(packets, recvBuffer, finished)
    }

    ghost predicate Valid()
      reads this
    {
      IsPrefix(prefix) && WellFormed(State())
    }

    /** Driver(): the prefix follows USE_LEADING_END_BYTE as it is now; nothing is received yet. */
    constructor(config: SlipConfig.Configuration)
      ensures prefix == if config.useLeadingEndByte then [END] else []
      ensures SendsLeadingEndByte() == config.useLeadingEndByte
      ensures State() == Fresh && Valid()
    {
      prefix := if config.useLeadingEndByte then [END] else [];
      finished := false;
      recvBuffer := [];
      packets := [];
    }

    /** send(message): the prefix, the encoded message, and END; the Driver does not change. */
    method Send(message: seq<Byte>) returns (packet: seq<Byte>)
      ensures packet == Frame(prefix, message)
    {
      packet := prefix + Slip.Encode(message) + [END];
    }

    /** sends_leading_end_byte: whether the captured prefix is END. */
    function SendsLeadingEndByte(): bool
      reads this
    {
      prefix == [END]
    }

    /** receive(data): see Feed. */
    method Receive(data: seq<Byte>)
      requires Valid()
      modifies this
      ensures Valid()
      ensures State() == Feed(old(State()), data)
    {
      ghost var st := State();
      FeedWellFormed(st, data);
      var d := data;
      if d == [] {
        // empty data marks the end of the stream and flushes the buffer as END would
        finished := true;
        d := [END];
      }
      recvBuffer := recvBuffer + d;
      recvBuffer := LStripEnd(recvBuffer);
      var pieces := SplitEndRuns(recvBuffer);
      var newPackets := pieces[..|pieces| - 1];
      recvBuffer := pieces[|pieces| - 1];
      var i := 0;
      while i < |newPackets|
        invariant 0 <= i <= |newPackets|
        invariant packets == st.packets + newPackets[..i]
        invariant recvBuffer == pieces[|pieces| - 1] && finished == (st.finished || data == [])
      {
        packets := packets + [newPackets[i]];
        assert newPackets[..i + 1] == newPackets[..i] + [newPackets[i]];
        i := i + 1;
      }
      assert newPackets[..i] == newPackets;
    }

    /** get(block=False): see Take. */
    method Get() returns (r: Got)
      requires Valid()
      modifies this
      ensures Valid()
      ensures (r, State()) == Take(old(State()))
    {
      TakeWellFormed(State());
      if packets == [] {
        r := if finished then Msg([]) else Nothing;
      } else {
        var packet := packets[0];
        packets := packets[1..];
        // the packet has left the queue even when decoding it raises
        r := GotOf(Slip.Decode(packet));
      }
    }
  }
}
