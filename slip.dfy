/**
  The escape codec of the current library: encode, decode and is_valid of
  src/sliplib/slip.py.  Encode and decode are written as the chains of
  bytes.replace calls the library uses; Escape and Unescape are byte-by-byte
  reference definitions, and the lemmas below connect the two and prove the
  round trip and the characterisation of valid packets.
 */
module Slip {
  import opened SlipBytes

  /** The outcome of decoding one packet: the message, or the ProtocolError that carries the packet. */
  datatype Decoded = Message(msg: seq<Byte>) | ProtocolError(packet: seq<Byte>)

  // ---------------------------------------------------------------------------
  // The library's definitions
  // ---------------------------------------------------------------------------

  /** encode: every ESC becomes ESC ESC_ESC, then every END becomes ESC ESC_END. */
  function Encode(msg: seq<Byte>): seq<Byte>
  {
    Replace(Replace(msg, [ESC], [ESC, ESC_ESC]), [END], [ESC, ESC_END])
  }

  /** An ESC somewhere in `p` is followed by a byte other than ESC_END and ESC_ESC. */
  predicate HasBadEscape(p: seq<Byte>)
  {
    exists i :: 0 <= i < |p| - 1 && p[i] == ESC && p[i + 1] != ESC_END && p[i + 1] != ESC_ESC
  }

  /** is_valid: no END, no trailing ESC, and no ESC followed by a byte other than ESC_END or ESC_ESC. */
  predicate IsValid(p: seq<Byte>)
  {
    !(END in p || (p != [] && p[|p| - 1] == ESC) || HasBadEscape(p))
  }

  /** The replacement chain of decode: ESC ESC_END becomes END, then ESC ESC_ESC becomes ESC. */
  function ReplaceEscapes(p: seq<Byte>): seq<Byte>
  {
    Replace(Replace(p, [ESC, ESC_END], [END]), [ESC, ESC_ESC], [ESC])
  }

  /**
    decode: a ProtocolError carrying exactly `packet` when it is not valid, and
    otherwise the message whose encoding is `packet`.
   */
  function Decode(packet: seq<Byte>): (r: Decoded)
    ensures r.ProtocolError? <==> !IsValid(packet)
    ensures r.ProtocolError? ==> r.packet == packet
    ensures r.Message? ==> WellEscaped(packet) && r.msg == Unescape(packet) && Encode(r.msg) == packet
  {
    if !IsValid(packet) then ProtocolError(packet)
    else
      ValidIsWellEscaped(packet);
      ReplaceEscapesUnescapes(packet);
      EscapeUnescape(packet);
      EncodeEscapes(Unescape(packet));
      Message(ReplaceEscapes(packet))
  }

  // ---------------------------------------------------------------------------
  // Byte-by-byte reference definitions
  // ---------------------------------------------------------------------------

  /** The escaped form of one byte. */
  function EscapeByte(b: Byte): seq<Byte>
  {
    if b == END then [ESC, ESC_END] else if b == ESC then [ESC, ESC_ESC] else [b]
  }

  /** Each byte of `msg` replaced by its escaped form. */
  function Escape(msg: seq<Byte>): seq<Byte>
    decreases |msg|
  {
    if msg == [] then [] else EscapeByte(msg[0]) + Escape(msg[1..])
  }

  /** Read left to right, every ESC starts a pair ESC ESC_END or ESC ESC_ESC. */
  predicate WellEscaped(p: seq<Byte>)
    decreases |p|
  {
    if p == [] then true
    else if p[0] == ESC then |p| >= 2 && (p[1] == ESC_END || p[1] == ESC_ESC) && WellEscaped(p[2..])
    else WellEscaped(p[1..])
  }

  /** Each escape pair replaced by the byte it stands for. */
  function Unescape(p: seq<Byte>): seq<Byte>
    requires WellEscaped(p)
    decreases |p|
  {
    if p == [] then []
    else if p[0] == ESC then [if p[1] == ESC_END then END else ESC] + Unescape(p[2..])
    else [p[0]] + Unescape(p[1..])
  }

  // ---------------------------------------------------------------------------
  // Encode
  // ---------------------------------------------------------------------------

  /** The chain of replacements in encode escapes each byte independently. */
  lemma {:induction false} EncodeEscapes(msg: seq<Byte>)
    ensures Encode(msg) == Escape(msg)
    decreases |msg|
  {
    if msg != [] {
      var c, rest := msg[0], msg[1..];
      assert msg == [c] + rest;
      var x := if c == ESC then [ESC, ESC_ESC] else [c];
      if c == ESC {
        ReplaceHead(rest, [ESC], [ESC, ESC_ESC]);
      } else {
        ReplaceCons(c, rest, [ESC], [ESC, ESC_ESC]);
      }
      assert Replace(msg, [ESC], [ESC, ESC_ESC]) == x + Replace(rest, [ESC], [ESC, ESC_ESC]);
      ReplaceByteAppend(x, Replace(rest, [ESC], [ESC, ESC_ESC]), END, [ESC, ESC_END]);
      EncodeEscapes(rest);
      if c == ESC {
        ReplaceCons(ESC, [ESC_ESC], [END], [ESC, ESC_END]);
        ReplaceCons(ESC_ESC, [], [END], [ESC, ESC_END]);
      } else if c == END {
        ReplaceHead([], [END], [ESC, ESC_END]);
        assert [END] + [] == [END];
      } else {
        ReplaceCons(c, [], [END], [ESC, ESC_END]);
      }
      assert Replace(x, [END], [ESC, ESC_END]) == EscapeByte(c);
    }
  }

  /** encode(b"") == b"". */
  lemma EncodeEmpty()
    ensures Encode([]) == []
  {
  }

  /** A message and its encoding have the same bytes apart from END and ESC, which become two bytes each. */
  lemma {:induction false} EncodeLength(msg: seq<Byte>)
    ensures |Encode(msg)| == |msg| + |SpecialBytes(msg)|
    decreases |msg|
  {
    EncodeEscapes(msg);
    EscapeLength(msg);
  }

  /** The END and ESC bytes of `msg`, in order. */
  function SpecialBytes(msg: seq<Byte>): seq<Byte>
    decreases |msg|
  {
    if msg == [] then []
    else (if msg[0] == END || msg[0] == ESC then [msg[0]] else []) + SpecialBytes(msg[1..])
  }

  lemma {:induction false} EscapeLength(msg: seq<Byte>)
    ensures |Escape(msg)| == |msg| + |SpecialBytes(msg)|
    decreases |msg|
  {
    if msg != [] {
      EscapeLength(msg[1..]);
    }
  }

  /** Escaping works byte by byte, so it distributes over concatenation. */
  lemma {:induction false} EscapeAppend(a: seq<Byte>, b: seq<Byte>)
    ensures Escape(a + b) == Escape(a) + Escape(b)
    decreases |a|
  {
    if a == [] {
      assert a + b == b;
    } else {
      assert (a + b)[1..] == a[1..] + b;
      EscapeAppend(a[1..], b);
    }
  }

  /** An escaped message holds no END and is well escaped. */
  lemma {:induction false} EscapeIsWellEscaped(msg: seq<Byte>)
    ensures END !in Escape(msg) && WellEscaped(Escape(msg))
    decreases |msg|
  {
    if msg != [] {
      EscapeIsWellEscaped(msg[1..]);
      var e := Escape(msg);
      var tail := Escape(msg[1..]);
      assert e == EscapeByte(msg[0]) + tail;
      if msg[0] == END || msg[0] == ESC {
        assert e[2..] == tail;
      } else {
        assert e[1..] == tail;
      }
    }
  }

  /** Unescaping undoes escaping. */
  lemma {:induction false} UnescapeEscape(msg: seq<Byte>)
    ensures WellEscaped(Escape(msg)) && Unescape(Escape(msg)) == msg
    decreases |msg|
  {
    EscapeIsWellEscaped(msg);
    if msg != [] {
      UnescapeEscape(msg[1..]);
      var e := Escape(msg);
      var tail := Escape(msg[1..]);
      assert e == EscapeByte(msg[0]) + tail;
      if msg[0] == END || msg[0] == ESC {
        assert e[2..] == tail;
      } else {
        assert e[1..] == tail;
      }
      assert msg == [msg[0]] + msg[1..];
    }
  }

  /** Escaping undoes unescaping on a well-escaped packet without END. */
  lemma {:induction false} EscapeUnescape(p: seq<Byte>)
    requires END !in p && WellEscaped(p)
    ensures Escape(Unescape(p)) == p
    decreases |p|
  {
    if p != [] {
      if p[0] == ESC {
        EscapeUnescape(p[2..]);
        assert p == [p[0], p[1]] + p[2..];
      } else {
        EscapeUnescape(p[1..]);
        assert p == [p[0]] + p[1..];
      }
    }
  }

  // ---------------------------------------------------------------------------
  // Validity
  // ---------------------------------------------------------------------------

  /** is_valid's three tests say, together, that the packet holds no END and is well escaped. */
  lemma ValidIsWellEscaped(p: seq<Byte>)
    ensures IsValid(p) <==> END !in p && WellEscaped(p)
  {
    EscapeTestsScan(p);
  }

  /** Apart from END, is_valid's tests are the left-to-right scan of WellEscaped. */
  lemma {:induction false} EscapeTestsScan(p: seq<Byte>)
    ensures !((p != [] && p[|p| - 1] == ESC) || HasBadEscape(p)) <==> WellEscaped(p)
    decreases |p|
  {
    if p == [] {
    } else if p[0] == ESC {
      if |p| == 1 {
      } else if p[1] != ESC_END && p[1] != ESC_ESC {
        assert HasBadEscape(p) by {
          assert 0 <= 0 < |p| - 1 && p[0] == ESC && p[1] != ESC_END && p[1] != ESC_ESC;
        }
      } else {
        EscapeTestsScan(p[2..]);
        BadEscapeShift(p, 2);
      }
    } else {
      EscapeTestsScan(p[1..]);
      BadEscapeShift(p, 1);
    }
  }

  /** Dropping a prefix in which no ESC can be bad keeps the answer of the later tests. */
  lemma BadEscapeShift(p: seq<Byte>, k: nat)
    requires 1 <= k <= 2 && k <= |p|
    requires p[0] != ESC || (k == 2 && (p[1] == ESC_END || p[1] == ESC_ESC))
    requires k == 2 ==> p[1] != ESC
    ensures HasBadEscape(p) <==> HasBadEscape(p[k..])
    ensures (p[k..] != [] && p[|p| - 1] == ESC) <==> (p != [] && p[|p| - 1] == ESC)
  {
    var q := p[k..];
    if HasBadEscape(p) {
      var i :| 0 <= i < |p| - 1 && p[i] == ESC && p[i + 1] != ESC_END && p[i + 1] != ESC_ESC;
      assert i >= k;
      assert q[i - k] == p[i] && q[i - k + 1] == p[i + 1];
    }
    if HasBadEscape(q) {
      var j :| 0 <= j < |q| - 1 && q[j] == ESC && q[j + 1] != ESC_END && q[j + 1] != ESC_ESC;
      assert p[j + k] == q[j] && p[j + k + 1] == q[j + 1];
    }
  }

  /** A packet is valid exactly when it is the encoding of some message. */
  lemma ValidIffEncoding(p: seq<Byte>)
    ensures IsValid(p) <==> exists m :: Encode(m) == p
  {
    ValidIsWellEscaped(p);
    if IsValid(p) {
      EscapeUnescape(p);
      EncodeEscapes(Unescape(p));
    }
    if exists m :: Encode(m) == p {
      var m :| Encode(m) == p;
      EncodeEscapes(m);
      EscapeIsWellEscaped(m);
    }
  }

  // ---------------------------------------------------------------------------
  // Decode
  // ---------------------------------------------------------------------------

  /** On a well-escaped packet the replacement chain of decode is the byte-by-byte unescape. */
  lemma {:induction false} ReplaceEscapesUnescapes(p: seq<Byte>)
    requires WellEscaped(p)
    ensures ReplaceEscapes(p) == Unescape(p)
    decreases |p|
  {
    var pat1, rep1 := [ESC, ESC_END], [END];
    var pat2, rep2 := [ESC, ESC_ESC], [ESC];
    if p == [] {
    } else if p[0] == ESC {
      var rest := p[2..];
      ReplaceEscapesUnescapes(rest);
      var inner := Replace(rest, pat1, rep1);
      if p[1] == ESC_END {
        assert p == pat1 + rest;
        ReplaceHead(rest, pat1, rep1);
        ReplaceCons(END, inner, pat2, rep2);
      } else {
        assert p == [ESC] + ([ESC_ESC] + rest);
        assert p[..2] != pat1;
        assert Replace(p, pat1, rep1) == [ESC] + Replace([ESC_ESC] + rest, pat1, rep1);
        ReplaceCons(ESC_ESC, rest, pat1, rep1);
        assert [ESC] + ([ESC_ESC] + inner) == pat2 + inner;
        ReplaceHead(inner, pat2, rep2);
      }
    } else {
      var rest := p[1..];
      ReplaceEscapesUnescapes(rest);
      assert p == [p[0]] + rest;
      ReplaceCons(p[0], rest, pat1, rep1);
      ReplaceCons(p[0], Replace(rest, pat1, rep1), pat2, rep2);
    }
  }

  /** decode(encode(m)) == m for every message m. */
  lemma DecodeEncode(msg: seq<Byte>)
    ensures Decode(Encode(msg)) == Message(msg)
  {
    EncodeEscapes(msg);
    EscapeIsWellEscaped(msg);
    ValidIsWellEscaped(Encode(msg));
    UnescapeEscape(msg);
  }

  /** A non-empty valid packet decodes to a non-empty message. */
  lemma DecodeNonEmpty(p: seq<Byte>)
    requires p != []
    ensures Decode(p).Message? ==> Decode(p).msg != []
  {
  }
}
