/**
  The codec generation in src/slip/slip.py.  The encoder escapes each byte
  as it arrives and opens the packet with END on its first call; a final call
  closes it.  The decoder is an explicit state machine (idle, normal, escaped,
  finished, error) fed one byte at a time, with three ways of treating an ESC
  followed by a byte that is neither ESC_END nor ESC_ESC.
 */
module StateMachineCodec {
  import opened SlipBytes
  import Slip
  import EarlySlip

  // ---------------------------------------------------------------------------
  // The encoder
  // ---------------------------------------------------------------------------

  /** The buffer after one call: an END opens an empty buffer, then each byte is appended escaped. */
  function Accumulate(encoded: seq<Byte>, obj: seq<Byte>): seq<Byte>
  {
    (if encoded == [] then [END] else encoded) + Slip.Escape(obj)
  }

  /** What a final call returns: the buffer closed by END, or nothing when it holds only the opening END. */
  function Finish(encoded: seq<Byte>): seq<Byte>
  {
    if |encoded| > 1 then encoded + [END] else []
  }

  /** The buffer after non-final calls with each chunk in turn. */
  function AccumulateAll(encoded: seq<Byte>, chunks: seq<seq<Byte>>): seq<Byte>
    decreases |chunks|
  {
    if chunks == [] then encoded else AccumulateAll(Accumulate(encoded, chunks[0]), chunks[1..])
  }

  /** Two calls accumulate what one call with both chunks does. */
  lemma AccumulateCompose(encoded: seq<Byte>, a: seq<Byte>, b: seq<Byte>)
    ensures Accumulate(Accumulate(encoded, a), b) == Accumulate(encoded, a + b)
  {
    Slip.EscapeAppend(a, b);
    var start := if encoded == [] then [END] else encoded;
    assert start + Slip.Escape(a) + Slip.Escape(b) == start + (Slip.Escape(a) + Slip.Escape(b));
  }

  /** Any number of non-final calls accumulate what one call with all their bytes does. */
  lemma {:induction false} AccumulateAllFlatten(encoded: seq<Byte>, chunks: seq<seq<Byte>>)
    requires chunks != []
    ensures AccumulateAll(encoded, chunks) == Accumulate(encoded, Flatten(chunks))
    decreases |chunks|
  {
    if |chunks| == 1 {
      assert Flatten(chunks) == chunks[0] + Flatten(chunks[1..]);
      assert chunks[0] + [] == chunks[0];
    } else {
      AccumulateAllFlatten(Accumulate(encoded, chunks[0]), chunks[1..]);
      AccumulateCompose(encoded, chunks[0], Flatten(chunks[1..]));
    }
  }

  /** A final call on a fresh encoder: END, the escaped message, END; nothing at all for the empty message. */
  lemma FinalEncode(msg: seq<Byte>)
    ensures Finish(Accumulate([], msg)) == if msg == [] then [] else EarlySlip.Encode(msg)
  {
    Slip.EncodeEscapes(msg);
    Slip.EscapeLength(msg);
  }

  /**
    Bytes fed through non-final calls and then a final call give the packet
    one final call with all of them gives.
   */
  lemma IncrementalEncode(chunks: seq<seq<Byte>>, last: seq<Byte>)
    ensures Finish(Accumulate(AccumulateAll([], chunks), last)) == Finish(Accumulate([], Flatten(chunks) + last))
  {
    if chunks == [] {
      assert Flatten(chunks) + last == last;
    } else {
      AccumulateAllFlatten([], chunks);
      AccumulateCompose([], Flatten(chunks), last);
    }
  }

  /** encode_map: the second byte of the escape pair for END and ESC. */
  function EncodeMap(b: Byte): Byte
    requires b == END || b == ESC
  {
    if b == END then ESC_END else ESC_ESC
  }

  /** One more byte of obj extends the escaped prefix by the byte, or by ESC and its encode_map byte. */
  lemma EscapeStep(start: seq<Byte>, obj: seq<Byte>, i: nat)
    requires i < |obj|
    ensures obj[i] != END && obj[i] != ESC ==>
              start + Slip.Escape(obj[..i + 1]) == start + Slip.Escape(obj[..i]) + [obj[i]]
    ensures obj[i] == END || obj[i] == ESC ==>
              start + Slip.Escape(obj[..i + 1]) == start + Slip.Escape(obj[..i]) + [ESC] + [EncodeMap(obj[i])]
  {
    var p, b := obj[..i], obj[i];
    assert obj[..i + 1] == p + [b];
    EscapeSnoc(p, b);
    AppendAssoc(start, Slip.Escape(p), Slip.EscapeByte(b));
    if b == END || b == ESC {
      assert Slip.EscapeByte(b) == [ESC] + [EncodeMap(b)];
      AppendAssoc(start + Slip.Escape(p), [ESC], [EncodeMap(b)]);
    }
  }

  /** Escaping one more byte appends its escaped form. */
  lemma EscapeSnoc(p: seq<Byte>, b: Byte)
    ensures Slip.Escape(p + [b]) == Slip.Escape(p) + Slip.EscapeByte(b)
  {
    Slip.EscapeAppend(p, [b]);
    assert Slip.Escape([b]) == Slip.EscapeByte(b) + Slip.Escape([]);
    assert Slip.EscapeByte(b) + [] == Slip.EscapeByte(b);
  }

  class SlipEncoder {
    var encodedBytes: seq<Byte>

    constructor()
      ensures encodedBytes == []
    {
      encodedBytes := [];
    }

    /**
      encode(obj, final): escape obj onto the buffer; a final call returns the
      closed packet and empties the buffer, a non-final call returns nothing.
     */
    method Encode(obj: seq<Byte>, final: bool) returns (r: Option<seq<Byte>>)
      modifies this
      ensures final ==> r == Some(Finish(Accumulate(old(encodedBytes), obj))) && encodedBytes == []
      ensures !final ==> r == None && encodedBytes == Accumulate(old(encodedBytes), obj)
    {
      if encodedBytes == [] {
        encodedBytes := encodedBytes + [END];
      }
      ghost var start := encodedBytes;
      var i := 0;
      while i < |obj|
        invariant 0 <= i <= |obj|
        invariant encodedBytes == start + Slip.Escape(obj[..i])
      {
        var b := obj[i];
        EscapeStep(start, obj, i);
        if b != END && b != ESC {
          encodedBytes := encodedBytes + [b];
        } else {
          encodedBytes := encodedBytes + [ESC];
          encodedBytes := encodedBytes + [EncodeMap(b)];
        }
        i := i + 1;
      }
      assert obj[..|obj|] == obj;
      assert encodedBytes == Accumulate(old(encodedBytes), obj);
      if final {
        if |encodedBytes| > 1 {
          encodedBytes := encodedBytes + [END];
        } else {
          encodedBytes := [];
        }
        r := Some(encodedBytes);
        Reset();
      } else {
        r := None;
      }
    }

    /** reset(): empty the buffer. */
    method Reset()
      modifies this
      ensures encodedBytes == []
    {
      encodedBytes := [];
    }
  }

  // ---------------------------------------------------------------------------
  // The decoder: one byte at a time
  // ---------------------------------------------------------------------------

  datatype State = Idle | Normal | Escaped | Finished | Error

  /** The errors argument of decode: what an ESC followed by a byte other than ESC_END or ESC_ESC gives. */
  datatype ErrorMode = Strict | Replace | Ignore

  /** What decode gives: a packet, None, or the SlipEncodingError or SlipDecodingError it raises. */
  datatype DecodeResult = Packet(bytes: seq<Byte>) | NoPacket | EncodingError | DecodingError

  /** decode_map: the byte an escape pair stands for. */
  function DecodeMap(b: Byte): Option<Byte>
  {
    if b == ESC_END then Some(END) else if b == ESC_ESC then Some(ESC) else None
  }

  /**
    The handler of `state` applied to one byte: the next state and decoded
    bytes, or None when the strict handler raises SlipEncodingError.  The
    finished state has no handler; decode never lets it reach one.
   */
  function Step(state: State, decoded: seq<Byte>, b: Byte, mode: ErrorMode): Option<(State, seq<Byte>)>
    requires state != Finished
  {
    match state
    case Idle =>
      if b == END then Some((Idle, decoded))
      else if b == ESC then Some((Escaped, decoded))
      else Some((Normal, decoded + [b]))
    case Normal =>
      if b == ESC then Some((Escaped, decoded))
      else if b == END then Some((Finished, decoded))
      else Some((Normal, decoded + [b]))
    case Escaped =>
      (match DecodeMap(b)
       case Some(x) => Some((Normal, decoded + [x]))
       case None =>
         (match mode
          case Strict => None
          case Replace => Some((Normal, decoded + [b]))
          case Ignore => Some((Normal, decoded + [ESC, b]))))
    case Error =>
      if b == END then Some((Idle, decoded)) else Some((Error, decoded))
    case Finished => assert false; None
  }

  /**
    The scan of decode's loop: where the bytes take the state and the decoded
    bytes, and how many were consumed; it stops after the byte that finishes a
    frame, or at the byte that raises.
   */
  datatype Scanned = Scanned(state: State, decoded: seq<Byte>, consumed: nat) | Invalid(consumed: nat)

  function Shift(r: Scanned, k: nat): Scanned
  {
    match r
    case Scanned(s, d, c) => Scanned(s, d, c + k)
    case Invalid(c) => Invalid(c + k)
  }

  lemma ShiftShift(r: Scanned, a: nat, b: nat)
    ensures Shift(Shift(r, a), b) == Shift(r, a + b)
  {
  }

  lemma ShiftZero(r: Scanned)
    ensures Shift(r, 0) == r
  {
  }

  function Scan(state: State, decoded: seq<Byte>, input: seq<Byte>, mode: ErrorMode): (r: Scanned)
    requires state != Finished
    ensures r.consumed <= |input|
    ensures r.Invalid? ==> 1 <= r.consumed
    ensures r.Scanned? && r.state != Finished ==> r.consumed == |input|
    decreases |input|
  {
    if input == [] then Scanned(state, decoded, 0)
    else
      match Step(state, decoded, input[0], mode)
      case None => Invalid(1)
      case Some(next) =>
        if next.0 == Finished then Scanned(Finished, next.1, 1)
        else
          Shift(Scan(next.0, next.1, input[1..], mode), 1)
  }

  /** Scanning a non-empty input takes one step on its first byte, then scans the rest. */
  lemma ScanFirst(state: State, decoded: seq<Byte>, q: seq<Byte>, mode: ErrorMode)
    requires state != Finished && q != []
    ensures var n := Step(state, decoded, q[0], mode);
            Scan(state, decoded, q, mode) ==
              if n.None? then Invalid(1)
              else if n.value.0 == Finished then Scanned(Finished, n.value.1, 1)
              else Shift(Scan(n.value.0, n.value.1, q[1..], mode), 1)
  {
  }

  /** The decoder between calls: the bytes kept for the next call, the bytes decoded so far, and the state. */
  datatype Decoder = Decoder(input: seq<Byte>, decoded: seq<Byte>, state: State)

  /** A new decoder, or one after reset(). */
  const Fresh := Decoder([], [], Idle)

  /** Every byte is END. */
  predicate AllEnd(s: seq<Byte>)
  {
    forall i :: 0 <= i < |s| ==> s[i] == END
  }

  /**
    What decode does once the loop is over: a raising escape puts the decoder
    in the error state; a final call raises SlipDecodingError when non-END
    bytes follow a finished frame or the input ends inside an escape; a
    finished frame, or anything at all in a final call, is returned; the
    unscanned bytes stay buffered, and a final call leaves the decoder as new.
   */
  function AfterScan(buf: seq<Byte>, sc: Scanned, final: bool): (r: (DecodeResult, Decoder))
    requires sc.consumed <= |buf|
    ensures r.1.state != Finished
    ensures final ==> r.1 == Fresh
    ensures !final && r.0 == EncodingError ==> r.1.state == Error && r.1.decoded == []
  {
    match sc
    case Invalid(k) =>
      (EncodingError, if final then Fresh else Decoder(buf[k..], [], Error))
    case Scanned(s, d, k) =>
      if final && ((s == Finished && !AllEnd(buf[k..])) || s == Escaped) then (DecodingError, Fresh)
      else if s == Finished || final then (Packet(d), if final then Fresh else Decoder(buf[k..], [], Idle))
      else (NoPacket, Decoder(buf[k..], d, s))
  }

  /** decode(obj, errors, final): the new bytes join the buffer, which is scanned from the current state. */
  function DecodeCall(st: Decoder, obj: seq<Byte>, mode: ErrorMode, final: bool): (r: (DecodeResult, Decoder))
    requires st.state != Finished
    ensures r.1.state != Finished
    ensures final ==> r.1 == Fresh
    ensures !final && r.0 == EncodingError ==> r.1.state == Error && r.1.decoded == []
    ensures !final && r.0 == NoPacket ==> r.1.input == []
  {
    var buf := st.input + obj;
    AfterScan(buf, Scan(st.state, st.decoded, buf, mode), final)
  }

  /** Only the bytes after those already scanned matter to what follows the loop. */
  lemma AfterScanShift(p: seq<Byte>, rest: seq<Byte>, sc: Scanned, final: bool)
    requires sc.consumed <= |rest|
    ensures AfterScan(p + rest, Shift(sc, |p|), final) == AfterScan(rest, sc, final)
  {
    assert (p + rest)[|p| + sc.consumed..] == rest[sc.consumed..];
  }

  // ---------------------------------------------------------------------------
  // Properties of the scan
  // ---------------------------------------------------------------------------

  /**
    Scanning two pieces: if the first is consumed without finishing or
    raising, the second continues from where the first left off; otherwise the
    second is not reached.
   */
  lemma {:induction false} ScanAppend(s: State, d: seq<Byte>, x: seq<Byte>, y: seq<Byte>, mode: ErrorMode)
    requires s != Finished
    ensures var r := Scan(s, d, x, mode);
            Scan(s, d, x + y, mode) ==
              if r.Scanned? && r.state != Finished then Shift(Scan(r.state, r.decoded, y, mode), |x|) else r
    decreases |x|, 1
  {
    if x == [] {
      assert x + y == y;
      ShiftZero(Scan(s, d, y, mode));
    } else {
      assert (x + y)[0] == x[0] && (x + y)[1..] == x[1..] + y;
      ScanFirst(s, d, x, mode);
      ScanFirst(s, d, x + y, mode);
      var n := Step(s, d, x[0], mode);
      if n.Some? && n.value.0 != Finished {
        ScanAppendShifted(n.value.0, n.value.1, x[1..], y, mode);
      }
    }
  }

  /** ScanAppend after one step, with the step's count of one added. */
  lemma {:induction false} ScanAppendShifted(s: State, d: seq<Byte>, x: seq<Byte>, y: seq<Byte>, mode: ErrorMode)
    requires s != Finished
    ensures var r := Scan(s, d, x, mode);
            Shift(Scan(s, d, x + y, mode), 1) ==
              if r.Scanned? && r.state != Finished then Shift(Scan(r.state, r.decoded, y, mode), |x| + 1)
              else Shift(r, 1)
    decreases |x|, 2
  {
    ScanAppend(s, d, x, y, mode);
    var r := Scan(s, d, x, mode);
    if r.Scanned? && r.state != Finished {
      ShiftShift(Scan(r.state, r.decoded, y, mode), |x|, 1);
    }
  }

  /** END bytes are skipped while idle. */
  lemma {:induction false} IdleSkipsEnds(d: seq<Byte>, ends: seq<Byte>, rest: seq<Byte>, mode: ErrorMode)
    requires AllEnd(ends)
    ensures Scan(Idle, d, ends + rest, mode) == Shift(Scan(Idle, d, rest, mode), |ends|)
    decreases |ends|
  {
    if ends == [] {
      assert ends + rest == rest;
      ShiftZero(Scan(Idle, d, rest, mode));
    } else {
      assert (ends + rest)[1..] == ends[1..] + rest;
      IdleSkipsEnds(d, ends[1..], rest, mode);
      ShiftShift(Scan(Idle, d, rest, mode), |ends[1..]|, 1);
    }
  }

  /** In the error state every byte up to the next END is discarded; that END returns to idle. */
  lemma {:induction false} ErrorDiscards(d: seq<Byte>, junk: seq<Byte>, rest: seq<Byte>, mode: ErrorMode)
    requires END !in junk
    ensures Scan(Error, d, junk, mode) == Scanned(Error, d, |junk|)
    ensures Scan(Error, d, junk + [END] + rest, mode) == Shift(Scan(Idle, d, rest, mode), |junk| + 1)
    decreases |junk|
  {
    if junk == [] {
      assert junk + [END] + rest == [END] + rest;
      assert ([END] + rest)[1..] == rest;
    } else {
      assert (junk + [END] + rest)[1..] == junk[1..] + [END] + rest;
      ErrorDiscards(d, junk[1..], rest, mode);
      ShiftShift(Scan(Idle, d, rest, mode), |junk[1..]| + 1, 1);
    }
  }

  /** One escaped byte, scanned from idle or normal, appends the byte and leaves the normal state. */
  lemma ScanEscapeByte(s: State, d: seq<Byte>, x: Byte, t: seq<Byte>, mode: ErrorMode)
    requires s == Normal || s == Idle
    ensures Scan(s, d, Slip.EscapeByte(x) + t, mode) == Shift(Scan(Normal, d + [x], t, mode), |Slip.EscapeByte(x)|)
  {
    var e := Slip.EscapeByte(x);
    var inner := Scan(Normal, d + [x], t, mode);
    if x == END || x == ESC {
      assert (e + t)[0] == ESC;
      assert (e + t)[1..] == [e[1]] + t;
      assert ([e[1]] + t)[1..] == t;
      assert Scan(Escaped, d, [e[1]] + t, mode) == Shift(inner, 1);
      assert Scan(s, d, e + t, mode) == Shift(Shift(inner, 1), 1);
      ShiftShift(inner, 1, 1);
    } else {
      assert (e + t)[0] == x;
      assert (e + t)[1..] == t;
    }
  }

  /**
    An escaped message is decoded back, in every error mode: from idle (when
    the message is not empty) or normal, the scan reaches the normal state with
    the message appended, having consumed exactly the escaped bytes.
   */
  lemma {:induction false} ScanEscape(s: State, d: seq<Byte>, msg: seq<Byte>, rest: seq<Byte>, mode: ErrorMode)
    requires s == Normal || (s == Idle && msg != [])
    ensures Scan(s, d, Slip.Escape(msg) + rest, mode) == Shift(Scan(Normal, d + msg, rest, mode), |Slip.Escape(msg)|)
    decreases |msg|
  {
    if msg == [] {
      assert Slip.Escape(msg) + rest == rest;
      assert d + msg == d;
      ShiftZero(Scan(Normal, d, rest, mode));
    } else {
      var x := msg[0];
      var tail := Slip.Escape(msg[1..]);
      assert Slip.Escape(msg) + rest == Slip.EscapeByte(x) + (tail + rest);
      ScanEscapeByte(s, d, x, tail + rest, mode);
      ScanEscape(Normal, d + [x], msg[1..], rest, mode);
      assert d + [x] + msg[1..] == d + msg;
      ShiftShift(Scan(Normal, d + msg, rest, mode), |tail|, |Slip.EscapeByte(x)|);
    }
  }

  /** A suffix of bytes without END has no END. */
  lemma NoEndSuffix(p: seq<Byte>, k: nat)
    requires END !in p && k <= |p|
    ensures END !in p[k..]
  {
    assert forall i :: 0 <= i < |p[k..]| ==> p[k..][i] == p[i + k];
  }

  /** An escape pair scanned from idle or normal: a valid pair appends its byte; under strict an invalid one raises. */
  lemma ScanEscPair(s: State, d: seq<Byte>, p: seq<Byte>, mode: ErrorMode)
    requires s == Normal || s == Idle
    requires |p| >= 2 && p[0] == ESC
    ensures p[1] == ESC_END || p[1] == ESC_ESC ==>
              Scan(s, d, p, mode) == Shift(Scan(Normal, d + [if p[1] == ESC_END then END else ESC], p[2..], mode), 2)
    ensures p[1] != ESC_END && p[1] != ESC_ESC && mode == Strict ==> Scan(s, d, p, mode) == Invalid(2)
  {
    assert p[1..][0] == p[1];
    assert p[1..][1..] == p[2..];
    if p[1] == ESC_END || p[1] == ESC_ESC {
      var x := if p[1] == ESC_END then END else ESC;
      var inner := Scan(Normal, d + [x], p[2..], mode);
      assert Scan(Escaped, d, p[1..], mode) == Shift(inner, 1);
      ShiftShift(inner, 1, 1);
    }
  }

  /** A byte other than END and ESC, scanned from idle or normal, is appended. */
  lemma ScanPlain(s: State, d: seq<Byte>, p: seq<Byte>, mode: ErrorMode)
    requires s == Normal || s == Idle
    requires p != [] && p[0] != ESC && p[0] != END
    ensures Scan(s, d, p, mode) == Shift(Scan(Normal, d + [p[0]], p[1..], mode), 1)
  {
  }

  /** A well-escaped packet without END, scanned from idle or normal, is unescaped in every mode. */
  lemma {:induction false} ScanValid(s: State, d: seq<Byte>, p: seq<Byte>, mode: ErrorMode)
    requires s == Normal || s == Idle
    requires END !in p && Slip.WellEscaped(p)
    ensures Scan(s, d, p, mode) == Scanned(if p == [] then s else Normal, d + Slip.Unescape(p), |p|)
    decreases |p|, 1
  {
    if p == [] {
      assert d + [] == d;
    } else if p[0] == ESC {
      ScanValidEsc(s, d, p, mode);
    } else {
      ScanValidPlain(s, d, p, mode);
    }
  }

  /** Unescaping a packet that starts with an escape pair appends the byte the pair stands for, then the rest unescaped. */
  lemma AppendUnescapedPair(d: seq<Byte>, p: seq<Byte>)
    requires Slip.WellEscaped(p) && p != [] && p[0] == ESC
    ensures d + [if p[1] == ESC_END then END else ESC] + Slip.Unescape(p[2..]) == d + Slip.Unescape(p)
  {
  }

  /** Unescaping a packet that starts with a byte other than ESC appends that byte, then the rest unescaped. */
  lemma AppendUnescapedPlain(d: seq<Byte>, p: seq<Byte>)
    requires Slip.WellEscaped(p) && p != [] && p[0] != ESC
    ensures d + [p[0]] + Slip.Unescape(p[1..]) == d + Slip.Unescape(p)
  {
  }

  /** The case of ScanValid where the packet starts with an escape pair. */
  lemma {:induction false} ScanValidEsc(s: State, d: seq<Byte>, p: seq<Byte>, mode: ErrorMode)
    requires s == Normal || s == Idle
    requires END !in p && Slip.WellEscaped(p) && p != [] && p[0] == ESC
    ensures Scan(s, d, p, mode) == Scanned(Normal, d + Slip.Unescape(p), |p|)
    decreases |p|, 0
  {
    var x := if p[1] == ESC_END then END else ESC;
    NoEndSuffix(p, 2);
    ScanValid(Normal, d + [x], p[2..], mode);
    ScanEscPair(s, d, p, mode);
    AppendUnescapedPair(d, p);
  }

  /** The case of ScanValid where the packet starts with a byte other than ESC. */
  lemma {:induction false} ScanValidPlain(s: State, d: seq<Byte>, p: seq<Byte>, mode: ErrorMode)
    requires s == Normal || s == Idle
    requires END !in p && Slip.WellEscaped(p) && p != [] && p[0] != ESC
    ensures Scan(s, d, p, mode) == Scanned(Normal, d + Slip.Unescape(p), |p|)
    decreases |p|, 0
  {
    NoEndSuffix(p, 1);
    ScanPlain(s, d, p, mode);
    ScanValid(Normal, d + [p[0]], p[1..], mode);
    AppendUnescapedPlain(d, p);
  }

  /** A packet without END that is not well escaped makes the strict scan raise or stop inside an escape. */
  lemma {:induction false} ScanInvalid(s: State, d: seq<Byte>, p: seq<Byte>)
    requires s == Normal || s == Idle
    requires END !in p && !Slip.WellEscaped(p)
    ensures Scan(s, d, p, Strict).Invalid? || Scan(s, d, p, Strict) == Scanned(Escaped, Scan(s, d, p, Strict).decoded, |p|)
    decreases |p|
  {
    if p[0] == ESC {
      if |p| == 1 {
        assert p[1..] == [];
        assert Scan(s, d, p, Strict) == Scanned(Escaped, d, 1);
      } else {
        ScanEscPair(s, d, p, Strict);
        if p[1] == ESC_END || p[1] == ESC_ESC {
          NoEndSuffix(p, 2);
          ScanInvalid(Normal, d + [if p[1] == ESC_END then END else ESC], p[2..]);
        }
      }
    } else {
      NoEndSuffix(p, 1);
      ScanPlain(s, d, p, Strict);
      ScanInvalid(Normal, d + [p[0]], p[1..]);
    }
  }

  /**
    Bytes without END, scanned from idle or normal: a well-escaped packet is
    unescaped in every mode, ending in the normal state (or where it started
    when empty); a packet that is not well escaped makes the strict scan raise
    or stop inside an escape.
   */
  lemma ScanUnescape(s: State, d: seq<Byte>, p: seq<Byte>, mode: ErrorMode)
    requires s == Normal || s == Idle
    requires END !in p
    ensures Slip.WellEscaped(p) ==>
              Scan(s, d, p, mode) == Scanned(if p == [] then s else Normal, d + Slip.Unescape(p), |p|)
    ensures !Slip.WellEscaped(p) && mode == Strict ==>
              Scan(s, d, p, mode).Invalid? || Scan(s, d, p, mode) == Scanned(Escaped, Scan(s, d, p, mode).decoded, |p|)
  {
    if Slip.WellEscaped(p) {
      ScanValid(s, d, p, mode);
    } else if mode == Strict {
      ScanInvalid(s, d, p);
    }
  }

  /** Only the strict mode raises SlipEncodingError: under replace and ignore every scan completes. */
  lemma {:induction false} LenientNeverRaises(s: State, d: seq<Byte>, input: seq<Byte>, mode: ErrorMode)
    requires s != Finished && mode != Strict
    ensures Scan(s, d, input, mode).Scanned?
    decreases |input|
  {
    if input != [] {
      match Step(s, d, input[0], mode)
      case None =>
        assert false;
      case Some(next) =>
        if next.0 != Finished {
          LenientNeverRaises(next.0, next.1, input[1..], mode);
        }
    }
  }

  // ---------------------------------------------------------------------------
  // Properties of decode
  // ---------------------------------------------------------------------------

  /** decode(encode(m)) == m: a fresh decoder's final decode of what a fresh encoder's final call returns, in every error mode, the empty message (b"") included. */
  lemma DecodeEncode(msg: seq<Byte>, mode: ErrorMode)
    ensures DecodeCall(Fresh, Finish(Accumulate([], msg)), mode, true) == (Packet(msg), Fresh)
  {
    FinalEncode(msg);
    if msg != [] {
      FinalDecodeFrame(msg, [], mode);
      assert EarlySlip.Encode(msg) + [] == EarlySlip.Encode(msg);
    }
  }

  /**
    A non-final decode of a frame followed by more bytes returns the frame's
    message, clears the decoded bytes and goes back to idle, keeping the bytes
    after the frame for the next call.
   */
  lemma NonFinalFrame(msg: seq<Byte>, more: seq<Byte>, mode: ErrorMode)
    requires msg != []
    ensures DecodeCall(Fresh, EarlySlip.Encode(msg) + more, mode, false) == (Packet(msg), Decoder(more, [], Idle))
  {
    var buf := EarlySlip.Encode(msg) + more;
    ScanEncoded(msg, more, mode);
    assert [] + buf == buf;
    assert buf[|EarlySlip.Encode(msg)|..] == more;
  }

  /** From idle, a run of END bytes is skipped to its end. */
  lemma ScanEnds(ends: seq<Byte>, mode: ErrorMode)
    requires AllEnd(ends)
    ensures Scan(Idle, [], ends, mode) == Scanned(Idle, [], |ends|)
  {
    IdleSkipsEnds([], ends, [], mode);
    assert ends + [] == ends;
  }

  /** The scan of an encoded non-empty message stops after its closing END, with the message decoded. */
  lemma ScanEncoded(msg: seq<Byte>, more: seq<Byte>, mode: ErrorMode)
    requires msg != []
    ensures Scan(Idle, [], EarlySlip.Encode(msg) + more, mode) == Scanned(Finished, msg, |EarlySlip.Encode(msg)|)
  {
    var e := Slip.Escape(msg);
    var t := [END] + more;
    EncodedWithMore(msg, more);
    IdleSkipsEnds([], [END], e + t, mode);
    ScanEscape(Idle, [], msg, t, mode);
    ScanClosingEnd(msg, more, mode);
    ShiftShift(Scanned(Finished, msg, 1), |e|, 1);
  }

  /** An encoded packet followed by more bytes is END, the escaped message, END, then the rest. */
  lemma EncodedWithMore(msg: seq<Byte>, more: seq<Byte>)
    ensures EarlySlip.Encode(msg) + more == [END] + (Slip.Escape(msg) + ([END] + more))
    ensures |EarlySlip.Encode(msg)| == |Slip.Escape(msg)| + 2
  {
    Slip.EncodeEscapes(msg);
  }

  /** In the middle of a packet, an END finishes it with what is decoded. */
  lemma ScanClosingEnd(d: seq<Byte>, more: seq<Byte>, mode: ErrorMode)
    ensures Scan(Normal, [] + d, [END] + more, mode) == Scanned(Finished, d, 1)
  {
    assert [] + d == d;
    assert ([END] + more)[0] == END;
  }

  /**
    A final decode of a frame followed by more bytes: the message when only
    END bytes follow, and SlipDecodingError when anything else does.
   */
  lemma FinalDecodeFrame(msg: seq<Byte>, more: seq<Byte>, mode: ErrorMode)
    requires msg != [] || AllEnd(more)
    ensures DecodeCall(Fresh, EarlySlip.Encode(msg) + more, mode, true) ==
              (if AllEnd(more) then Packet(msg) else DecodingError, Fresh)
  {
    if msg == [] {
      FinalDecodeEnds(more, mode);
    } else {
      FinalDecodeMessage(msg, more, mode);
    }
  }

  /** FinalDecodeFrame for the empty message, whose frame is END END. */
  lemma FinalDecodeEnds(more: seq<Byte>, mode: ErrorMode)
    requires AllEnd(more)
    ensures DecodeCall(Fresh, EarlySlip.Encode([]) + more, mode, true) == (Packet([]), Fresh)
  {
    var buf := EarlySlip.Encode([]) + more;
    assert [] + buf == buf;
    EarlySlip.EncodeEmpty();
    assert buf == [END, END] + more;
    assert AllEnd(buf) by {
      assert forall i :: 2 <= i < |buf| ==> buf[i] == more[i - 2];
    }
    ScanEnds(buf, mode);
    assert buf[|buf|..] == [];
  }

  /** FinalDecodeFrame for a non-empty message. */
  lemma FinalDecodeMessage(msg: seq<Byte>, more: seq<Byte>, mode: ErrorMode)
    requires msg != []
    ensures DecodeCall(Fresh, EarlySlip.Encode(msg) + more, mode, true) ==
              (if AllEnd(more) then Packet(msg) else DecodingError, Fresh)
  {
    var buf := EarlySlip.Encode(msg) + more;
    assert [] + buf == buf;
    ScanEncoded(msg, more, mode);
    assert buf[|EarlySlip.Encode(msg)|..] == more;
  }

  /** A final decode that ends inside an escape raises SlipDecodingError, in every mode. */
  lemma UnfinishedEscape(msg: seq<Byte>, mode: ErrorMode)
    ensures DecodeCall(Fresh, [END] + Slip.Escape(msg) + [ESC], mode, true) == (DecodingError, Fresh)
  {
    var e := Slip.Escape(msg);
    var buf := [] + ([END] + e + [ESC]);
    assert buf == [END] + (e + [ESC]);
    IdleSkipsEnds([], [END], e + [ESC], mode);
    if msg == [] {
      assert e + [ESC] == [ESC];
    } else {
      ScanEscape(Idle, [], msg, [ESC], mode);
      ShiftShift(Scan(Normal, [] + msg, [ESC], mode), |e|, 1);
    }
  }

  /** Scanning a packet framed by END from idle: the leading END is skipped and the trailing one is scanned after the packet. */
  lemma FramedScan(p: seq<Byte>, mode: ErrorMode)
    ensures var r := Scan(Idle, [], p, mode);
            Scan(Idle, [], [END] + p + [END], mode) ==
              Shift(if r.Scanned? && r.state != Finished then Shift(Scan(r.state, r.decoded, [END], mode), |p|) else r, 1)
  {
    var q := p + [END];
    assert [END] + p + [END] == [END] + q;
    IdleSkipsEnds([], [END], q, mode);
    ScanAppend(Idle, [], p, [END], mode);
  }

  /** The strict scan of a framed well-escaped packet finishes the frame with the unescaped packet (an empty one stays idle). */
  lemma FramedScanValid(p: seq<Byte>, mode: ErrorMode)
    requires END !in p && Slip.WellEscaped(p)
    ensures Scan(Idle, [], [END] + p + [END], mode) ==
              Scanned(if p == [] then Idle else Finished, Slip.Unescape(p), |p| + 2)
  {
    FramedScan(p, mode);
    ScanUnescape(Idle, [], p, mode);
    var u := Slip.Unescape(p);
    assert [] + u == u;
    if p == [] {
      assert Scan(Idle, [], [END], mode) == Scanned(Idle, [], 1);
    } else {
      assert Scan(Normal, u, [END], mode) == Scanned(Finished, u, 1);
    }
  }

  /** The strict scan of a framed packet that is not well escaped raises. */
  lemma StrictFramedScanInvalid(p: seq<Byte>)
    requires END !in p && !Slip.WellEscaped(p)
    ensures Scan(Idle, [], [END] + p + [END], Strict).Invalid?
  {
    FramedScan(p, Strict);
    ScanUnescape(Idle, [], p, Strict);
    var r := Scan(Idle, [], p, Strict);
    if r.Scanned? {
      assert Scan(Escaped, r.decoded, [END], Strict) == Invalid(1);
    }
  }

  /**
    On a framed packet without END inside, the strict final decode agrees with
    the current validity test: the message of the current decode when the
    packet is valid, and otherwise SlipEncodingError.
   */
  lemma StrictFramedAgrees(p: seq<Byte>)
    requires END !in p
    ensures DecodeCall(Fresh, [END] + p + [END], Strict, true).0 ==
              if Slip.IsValid(p) then Packet(Slip.Decode(p).msg) else EncodingError
  {
    var buf := [END] + p + [END];
    assert [] + buf == buf;
    Slip.ValidIsWellEscaped(p);
    if Slip.WellEscaped(p) {
      FramedScanValid(p, Strict);
    } else {
      StrictFramedScanInvalid(p);
    }
    assert buf[|buf|..] == [];
    var sc := Scan(Idle, [], buf, Strict);
    assert DecodeCall(Fresh, buf, Strict, true) == AfterScan(buf, sc, true);
  }

  /**
    On a packet without END and without framing, the strict final decode
    returns the message exactly when the current decode does; otherwise it
    raises one of the two errors.
   */
  lemma StrictAgrees(p: seq<Byte>)
    requires END !in p
    ensures var r := DecodeCall(Fresh, p, Strict, true).0;
            (r.Packet? <==> Slip.IsValid(p)) &&
            (r.Packet? ==> Slip.Decode(p) == Slip.Message(r.bytes))
  {
    ScanUnescape(Idle, [], p, Strict);
    Slip.ValidIsWellEscaped(p);
    assert [] + p == p;
    if Slip.WellEscaped(p) {
      assert [] + Slip.Unescape(p) == Slip.Unescape(p);
    }
  }

  /** On well-escaped bytes the three error modes decode alike. */
  lemma ModesAgree(st: Decoder, p: seq<Byte>, mode: ErrorMode, final: bool)
    requires st.input == [] && (st.state == Idle || st.state == Normal)
    requires END !in p && Slip.WellEscaped(p)
    ensures DecodeCall(st, p, mode, final) == DecodeCall(st, p, Strict, final)
  {
    ScanUnescape(st.state, st.decoded, p, mode);
    ScanUnescape(st.state, st.decoded, p, Strict);
    assert [] + p == p;
  }

  /**
    Feeding bytes in pieces: after a non-final call that returns None, the
    next call gives what one call with both pieces gives.
   */
  lemma DecodeInPieces(st: Decoder, a: seq<Byte>, b: seq<Byte>, mode: ErrorMode, final: bool)
    requires st.state != Finished
    requires DecodeCall(st, a, mode, false).0 == NoPacket
    ensures DecodeCall(DecodeCall(st, a, mode, false).1, b, mode, final) == DecodeCall(st, a + b, mode, final)
  {
    var buf := st.input + a;
    var r := Scan(st.state, st.decoded, buf, mode);
    assert r.Scanned? && r.state != Finished && r.consumed == |buf|;
    assert DecodeCall(st, a, mode, false).1 == Decoder([], r.decoded, r.state);
    ScanAppend(st.state, st.decoded, buf, b, mode);
    assert st.input + (a + b) == buf + b;
    assert [] + b == b;
    AfterScanShift(buf, b, Scan(r.state, r.decoded, b, mode), final);
  }

  /**
    After a strict escape error in a non-final call, the decoder discards the
    bytes up to the next END and then decodes as a fresh decoder would.
   */
  lemma ErrorRecovery(junk: seq<Byte>, rest: seq<Byte>, mode: ErrorMode, final: bool)
    requires END !in junk
    ensures DecodeCall(Decoder([], [], Error), junk + [END] + rest, mode, final) == DecodeCall(Fresh, rest, mode, final)
  {
    ErrorDiscards([], junk, rest, mode);
    assert [] + (junk + [END] + rest) == (junk + [END]) + rest;
    assert [] + rest == rest;
    AfterScanShift(junk + [END], rest, Scan(Idle, [], rest, mode), final);
  }

  /**
    An ESC followed by a byte other than ESC_END and ESC_ESC raises at once
    in strict mode, even in a non-final call that has not seen the end of the
    frame.
   */
  lemma StrictRaisesAtOnce()
    ensures DecodeCall(Fresh, [END, 0x6c, ESC, 0x77], Strict, false) == (EncodingError, Decoder([], [], Error))
  {
    var buf: seq<Byte> := [END, 0x6c, ESC, 0x77];
    assert [] + buf == buf;
    assert buf[1..] == [0x6c, ESC, 0x77] && buf[1..][1..] == [ESC, 0x77] && buf[1..][1..][1..] == [0x77];
    var b2: seq<Byte> := [ESC, 0x77];
    var b3: seq<Byte> := [0x6c, ESC, 0x77];
    assert b2[1..] == [0x77] && b3[1..] == b2;
    var b1: seq<Byte> := [0x77];
    var none: seq<Byte> := [];
    assert none + [0x6c] == [0x6c];
    assert Scan(Escaped, [0x6c], b1, Strict) == Invalid(1);
    assert Scan(Normal, [0x6c], b2, Strict) == Invalid(2);
    assert Scan(Idle, none, b3, Strict) == Invalid(3);
    assert Scan(Idle, [], buf, Strict) == Invalid(4);
    assert buf[4..] == [];
  }

  // ---------------------------------------------------------------------------
  // reset
  // ---------------------------------------------------------------------------

  /**
    reset() as written: the buffer is emptied and the state set to idle, but
    the bytes decoded so far are kept.
   */
  function ResetAsWritten(st: Decoder): (r: Decoder)
    ensures r.input == [] && r.state == Idle && r.decoded == st.decoded
  {
    Decoder([], st.decoded, Idle)
  }

  /**
    The kept bytes leak into the next packet: after a partial frame b"a" and
    reset(), decoding b"b" END gives b"ab", where a fresh decoder gives b"b".
   */
  lemma ResetKeepsPartialFrame()
    ensures var st := DecodeCall(Fresh, [0x61], Strict, false).1;
            DecodeCall(ResetAsWritten(st), [0x62, END], Strict, false).0 == Packet([0x61, 0x62]) &&
            DecodeCall(Fresh, [0x62, END], Strict, false).0 == Packet([0x62])
  {
    var b1: seq<Byte> := [0x61];
    assert [] + b1 == b1 && b1[1..] == [];
    assert Scan(Idle, [], b1, Strict) == Scanned(Normal, [0x61], 1);
    var st := DecodeCall(Fresh, [0x61], Strict, false).1;
    assert st == Decoder([], [0x61], Normal);
    var b2: seq<Byte> := [0x62, END];
    assert [] + b2 == b2 && b2[1..] == [END];
    assert Scan(Normal, [0x62], [END], Strict) == Scanned(Finished, [0x62], 1);
    assert Scan(Idle, [], b2, Strict) == Scanned(Finished, [0x62], 2);
    assert Scan(Normal, [0x61, 0x62], [END], Strict) == Scanned(Finished, [0x61, 0x62], 1);
    assert [0x61] + [0x62] == [0x61, 0x62];
    assert Scan(Idle, [0x61], b2, Strict) == Scanned(Finished, [0x61, 0x62], 2);
  }

  /** reset() as intended: the decoder is as new, so every later call decodes as on a fresh decoder. */
  function ResetState(st: Decoder): (r: Decoder)
    ensures r == Fresh
  {
    Fresh
  }

  class SlipDecoder {
    var inputBuffer: seq<Byte>
    var decodedBytes: seq<Byte>
    var state: State
    var scanPos: nat

    function Model(): Decoder
      reads this
    {
      Decoder(inputBuffer, decodedBytes, state)
    }

    /** Between calls the scan position is 0 and no frame is left finished. */
    predicate Valid()
      reads this
    {
      scanPos == 0 && state != Finished
    }

    constructor()
      ensures Valid() && Model() == Fresh
    {
      inputBuffer := [];
      decodedBytes := [];
      state := Idle;
      scanPos := 0;
    }

    /** _idle_handler: wait for a byte other than END. */
    method IdleHandler(b: Byte)
      requires state == Idle
      modifies this
      ensures Step(old(state), old(decodedBytes), b, Strict) == Some((state, decodedBytes))
      ensures inputBuffer == old(inputBuffer) && scanPos == old(scanPos)
    {
      if b != END {
        if b == ESC {
          state := Escaped;
        } else {
          state := Normal;
          decodedBytes := decodedBytes + [b];
        }
      }
    }

    /** _normal_handler: ESC starts an escape, END finishes the frame, anything else is data. */
    method NormalHandler(b: Byte)
      requires state == Normal
      modifies this
      ensures Step(old(state), old(decodedBytes), b, Strict) == Some((state, decodedBytes))
      ensures inputBuffer == old(inputBuffer) && scanPos == old(scanPos)
    {
      if b == ESC {
        state := Escaped;
      } else if b == END {
        state := Finished;
      } else {
        decodedBytes := decodedBytes + [b];
      }
    }

    /** _decode_replace_errors_strict: the mapped byte, or SlipEncodingError (ok is false). */
    method DecodeStrict(b: Byte) returns (ok: bool)
      modifies this
      ensures ok <==> DecodeMap(b).Some?
      ensures ok ==> decodedBytes == old(decodedBytes) + [DecodeMap(b).value]
      ensures !ok ==> decodedBytes == old(decodedBytes)
      ensures state == old(state) && inputBuffer == old(inputBuffer) && scanPos == old(scanPos)
    {
      var x := DecodeMap(b);
      if x.None? {
        return false;
      }
      decodedBytes := decodedBytes + [x.value];
      ok := true;
    }

    /** _decode_replace_errors_replace: the mapped byte, or the byte itself. */
    method DecodeReplace(b: Byte)
      modifies this
      ensures decodedBytes == old(decodedBytes) + [if DecodeMap(b).Some? then DecodeMap(b).value else b]
      ensures state == old(state) && inputBuffer == old(inputBuffer) && scanPos == old(scanPos)
    {
      var x := DecodeMap(b);
      decodedBytes := decodedBytes + [if x.Some? then x.value else b];
    }

    /** _decode_replace_errors_ignore: the mapped byte, or ESC and the byte, kept as they came. */
    method DecodeIgnore(b: Byte)
      modifies this
      ensures decodedBytes == old(decodedBytes) + if DecodeMap(b).Some? then [DecodeMap(b).value] else [ESC, b]
      ensures state == old(state) && inputBuffer == old(inputBuffer) && scanPos == old(scanPos)
    {
      var x := DecodeMap(b);
      if x.Some? {
        decodedBytes := decodedBytes + [x.value];
      } else {
        decodedBytes := decodedBytes + [ESC];
        decodedBytes := decodedBytes + [b];
      }
    }

    /** _escaped_handler: decode the byte after ESC as the error mode says, then back to normal. */
    method EscapedHandler(b: Byte, mode: ErrorMode) returns (ok: bool)
      requires state == Escaped
      modifies this
      ensures ok <==> Step(old(state), old(decodedBytes), b, mode).Some?
      ensures ok ==> Step(old(state), old(decodedBytes), b, mode) == Some((state, decodedBytes))
      ensures inputBuffer == old(inputBuffer) && scanPos == old(scanPos)
    {
      match mode {
        case Strict =>
          ok := DecodeStrict(b);
          if !ok {
            return;
          }
        case Replace =>
          DecodeReplace(b);
          ok := true;
        case Ignore =>
          DecodeIgnore(b);
          ok := true;
      }
      state := Normal;
    }

    /** _error_handler: skip to the next END, which returns to idle. */
    method ErrorHandler(b: Byte)
      requires state == Error
      modifies this
      ensures Step(old(state), old(decodedBytes), b, Strict) == Some((state, decodedBytes))
      ensures inputBuffer == old(inputBuffer) && scanPos == old(scanPos)
    {
      if b == END {
        state := Idle;
      }
    }

    /** _handle_map: the handler of the current state; ok is false when it raises SlipEncodingError. */
    method Handle(b: Byte, mode: ErrorMode) returns (ok: bool)
      requires state != Finished
      modifies this
      ensures ok <==> Step(old(state), old(decodedBytes), b, mode).Some?
      ensures ok ==> Step(old(state), old(decodedBytes), b, mode) == Some((state, decodedBytes))
      ensures inputBuffer == old(inputBuffer) && scanPos == old(scanPos)
    {
      match state {
        case Idle =>
          IdleHandler(b);
          ok := true;
        case Normal =>
          NormalHandler(b);
          ok := true;
        case Escaped =>
          ok := EscapedHandler(b, mode);
        case Error =>
          ErrorHandler(b);
          ok := true;
      }
    }

    /**
      The loop of decode: the buffered bytes are fed to the handlers from the
      start until a frame is finished or a handler raises; ok is false when
      one raised, and scanPos counts the bytes fed, the last one included.
     */
    method ScanBuffer(mode: ErrorMode) returns (ok: bool)
      requires scanPos == 0 && state != Finished
      modifies this
      ensures inputBuffer == old(inputBuffer) && scanPos <= |inputBuffer|
      ensures Scan(old(state), old(decodedBytes), inputBuffer, mode) ==
                if ok then Scanned(state, decodedBytes, scanPos) else Invalid(scanPos)
    {
      ghost var s0, d0 := state, decodedBytes;
      while scanPos < |inputBuffer|
        invariant scanPos <= |inputBuffer| && state != Finished
        invariant inputBuffer == old(inputBuffer)
        invariant Scan(s0, d0, inputBuffer, mode) == Shift(Scan(state, decodedBytes, inputBuffer[scanPos..], mode), scanPos)
        decreases |inputBuffer| - scanPos
      {
        ok := ScanByte(mode);
        if !ok || state == Finished {
          return;
        }
      }
      ok := true;
      assert inputBuffer[scanPos..] == [];
    }

    /**
      One pass of the scan loop: the byte at scanPos is fed to the handler of
      the current state; stated as the scan of the rest of the buffer,
      counted from its start.
     */
    method ScanByte(mode: ErrorMode) returns (ok: bool)
      requires scanPos < |inputBuffer| && state != Finished
      modifies this
      ensures inputBuffer == old(inputBuffer) && scanPos == old(scanPos) + 1
      ensures Shift(Scan(old(state), old(decodedBytes), inputBuffer[old(scanPos)..], mode), old(scanPos)) ==
                if !ok then Invalid(scanPos)
                else if state == Finished then Scanned(Finished, decodedBytes, scanPos)
                else Shift(Scan(state, decodedBytes, inputBuffer[scanPos..], mode), scanPos)
    {
      var b := inputBuffer[scanPos];
      ghost var q := inputBuffer[scanPos..];
      ScanFirst(state, decodedBytes, q, mode);
      scanPos := scanPos + 1;
      assert q[1..] == inputBuffer[scanPos..];
      ok := Handle(b, mode);
      if ok && state != Finished {
        ShiftShift(Scan(state, decodedBytes, q[1..], mode), 1, scanPos - 1);
      }
    }

    /**
      decode(obj, errors, final): the new bytes join the buffer, the loop
      scans it, then the final checks and the reset.
     */
    method Decode(obj: seq<Byte>, mode: ErrorMode, final: bool) returns (r: DecodeResult)
      requires Valid()
      modifies this
      ensures Valid() && (r, Model()) == DecodeCall(old(Model()), obj, mode, final)
    {
      ghost var s0, d0 := state, decodedBytes;
      inputBuffer := inputBuffer + obj;
      var ok := ScanBuffer(mode);
      ghost var sc := Scan(s0, d0, inputBuffer, mode);
      assert DecodeCall(old(Model()), obj, mode, final) == AfterScan(inputBuffer, sc, final);
      if !ok {
        // SlipEncodingError: the error state, with nothing decoded
        state := Error;
        decodedBytes := [];
        Reset(final);
        return EncodingError;
      }
      if final && ((state == Finished && !AllEnd(inputBuffer[scanPos..])) || state == Escaped) {
        // SlipDecodingError
        decodedBytes := [];
        Reset(final);
        return DecodingError;
      }
      if state == Finished || final {
        r := Packet(decodedBytes);
        decodedBytes := [];
      } else {
        r := NoPacket;
      }
      Reset(final);
    }

    /**
      reset(final): a final reset empties the buffer and returns to idle (and,
      as intended, drops the bytes decoded so far); otherwise the scanned bytes
      are dropped from the buffer; a finished frame returns to idle.
     */
    method Reset(final: bool)
      requires scanPos <= |inputBuffer|
      modifies this
      ensures final ==> Model() == ResetState(old(Model()))
      ensures !final ==> inputBuffer == old(inputBuffer)[old(scanPos)..] && decodedBytes == old(decodedBytes) &&
                         state == (if old(state) == Finished then Idle else old(state))
      ensures scanPos == 0
    {
      if final {
        inputBuffer := [];
        decodedBytes := [];
        state := Idle;
      } else {
        inputBuffer := inputBuffer[scanPos..];
      }
      scanPos := 0;
      if state == Finished {
        state := Idle;
      }
    }
  }
}
