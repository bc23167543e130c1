/**
  The codec generation in slip/slip.py.  The encoder only accumulates bytes
  until a final call frames and escapes them all at once.  The decoder keeps
  an input buffer, takes the packet before the first END, checks that no ESC
  is left once the escape pairs are removed, and unescapes with bytes.replace.
 */
module SplittingCodec {
  import opened SlipBytes
  import Slip
  import EarlySlip

  // ---------------------------------------------------------------------------
  // The encoder
  // ---------------------------------------------------------------------------

  /** What a final call returns for the accumulated bytes: nothing when there are none, otherwise END, the escaped bytes, END. */
  function Frame(acc: seq<Byte>): (r: seq<Byte>)
  {
    if acc == [] then [] else [END] + Slip.Encode(acc) + [END]
  }

  /** A non-empty message is framed as the earlier encode frames it; the empty one gives nothing at all. */
  lemma FrameIsEarlyEncode(msg: seq<Byte>)
    ensures Frame(msg) == if msg == [] then [] else EarlySlip.Encode(msg)
  {
  }

  /** A framed message holds END exactly at its two ends. */
  lemma FrameShape(msg: seq<Byte>)
    requires msg != []
    ensures var f := Frame(msg);
            |f| >= 3 && f[0] == END && f[|f| - 1] == END && END !in f[1..|f| - 1]
  {
    var e := Slip.Encode(msg);
    Slip.DecodeEncode(msg);
    Slip.EncodeLength(msg);
    assert Frame(msg)[1..|Frame(msg)| - 1] == e;
  }

  class SlipEncoder {
    /** The bytes of the non-final calls since the last final call or reset. */
    var encodedBytes: seq<Byte>

    constructor()
      ensures encodedBytes == []
    {
      encodedBytes := [];
    }

    /**
      encode(obj, final): the bytes are accumulated; a final call returns the
      framed packet of everything accumulated and resets, a non-final call
      returns nothing.
     */
    method Encode(obj: seq<Byte>, final: bool) returns (r: Option<seq<Byte>>)
      modifies this
      ensures final ==> r == Some(Frame(old(encodedBytes) + obj)) && encodedBytes == []
      ensures !final ==> r == None && encodedBytes == old(encodedBytes) + obj
    {
      encodedBytes := encodedBytes + obj;
      if final {
        var packet := [];
        if encodedBytes != [] {
          packet := [END] + Slip.Encode(encodedBytes) + [END];
        }
        Reset();
        return Some(packet);
      }
      r := None;
    }

    /** reset(): the accumulated bytes are dropped. */
    method Reset()
      modifies this
      ensures encodedBytes == []
    {
      encodedBytes := [];
    }
  }

  // ---------------------------------------------------------------------------
  // The escape check
  // ---------------------------------------------------------------------------

  /** The pair ESC ESC_END, which stands for END. */
  const EscapedEnd: seq<Byte> := [ESC, ESC_END]
  /** The pair ESC ESC_ESC, which stands for ESC. */
  const EscapedEsc: seq<Byte> := [ESC, ESC_ESC]

  /** Each piece split at ESC ESC_ESC, and all the parts joined. */
  function JoinSplitEsc(pieces: seq<seq<Byte>>): seq<Byte>
    decreases |pieces|
  {
    if pieces == [] then [] else Flatten(SplitOn(pieces[0], EscapedEsc)) + JoinSplitEsc(pieces[1..])
  }

  /**
    The bytes decode checks for a stray ESC: the packet split at ESC ESC_END,
    each piece split again at ESC ESC_ESC, and the parts joined.
   */
  function NonEscaped(packet: seq<Byte>): seq<Byte>
  {
    JoinSplitEsc(SplitOn(packet, EscapedEnd))
  }

  /** The position of the first `x` in `s`, as bytes.index and list.index find it. */
  function IndexOf(s: seq<Byte>, x: Byte): (i: nat)
    requires x in s
    ensures i < |s| && s[i] == x && x !in s[..i]
    decreases |s|
  {
    if s[0] == x then 0
    else
      var j := IndexOf(s[1..], x);
      assert s[..j + 1] == [s[0]] + s[1..][..j];
      j + 1
  }

  /** Why decode raises SlipDecodingError. */
  datatype DecodeError =
    | UnfinishedEscape
    | InvalidEscape(next: Byte)
    | RemainingBytes(rest: seq<Byte>)

  /**
    The escape check of decode: no error when no ESC is left; otherwise an
    unfinished escape when that ESC is the last byte left, and an invalid
    escape naming the byte left after it when it is not.
   */
  function EscapeCheck(packet: seq<Byte>): (r: Option<DecodeError>)
    ensures r.Some? ==> r.value.UnfinishedEscape? || r.value.InvalidEscape?
  {
    var ne := NonEscaped(packet);
    if ESC !in ne then None
    else
      var i := IndexOf(ne, ESC);
      if i + 1 < |ne| then Some(InvalidEscape(ne[i + 1])) else Some(UnfinishedEscape)
  }

  // ---------------------------------------------------------------------------
  // The escape check is the validity test of the left-to-right scan
  // ---------------------------------------------------------------------------

  /** An ESC of `q` that is not followed by `b` (the last byte of `q` included). */
  predicate LoneEsc(q: seq<Byte>, b: Byte)
  {
    exists i :: 0 <= i < |q| && q[i] == ESC && (i + 1 == |q| || q[i + 1] != b)
  }

  /** An ESC of `p` that is followed by neither ESC_END nor ESC_ESC (the last byte of `p` included). */
  predicate BadEsc(p: seq<Byte>)
  {
    exists i :: 0 <= i < |p| && p[i] == ESC && (i + 1 == |p| || (p[i + 1] != ESC_END && p[i + 1] != ESC_ESC))
  }

  /** The first piece of a split is empty exactly when the separator starts the bytes; otherwise it starts with their first byte. */
  lemma FirstPiece(s: seq<Byte>, sep: seq<Byte>)
    requires sep != []
    ensures SplitOn(s, sep)[0] == [] <==> s == [] || (|s| >= |sep| && s[..|sep|] == sep)
    ensures SplitOn(s, sep)[0] != [] ==> SplitOn(s, sep)[0][0] == s[0]
  {
  }

  /** Dropping a prefix that holds no ESC keeps the lone ESC bytes. */
  lemma LoneEscTail(q: seq<Byte>, b: Byte, k: nat)
    requires k <= |q| && ESC !in q[..k]
    ensures LoneEsc(q, b) <==> LoneEsc(q[k..], b)
  {
    if LoneEsc(q, b) {
      var i :| 0 <= i < |q| && q[i] == ESC && (i + 1 == |q| || q[i + 1] != b);
      assert q[k..][i - k] == q[i];
    }
    if LoneEsc(q[k..], b) {
      var j :| 0 <= j < |q[k..]| && q[k..][j] == ESC && (j + 1 == |q[k..]| || q[k..][j + 1] != b);
      assert q[j + k] == ESC && (j + k + 1 == |q| || q[j + k + 1] != b);
    }
  }

  /** A leading pair ESC b holds no lone ESC. */
  lemma LoneEscAfterPair(q: seq<Byte>, b: Byte)
    requires |q| >= 2 && q[0] == ESC && q[1] == b && b != ESC
    ensures LoneEsc(q, b) <==> LoneEsc(q[2..], b)
  {
    if LoneEsc(q, b) {
      var i :| 0 <= i < |q| && q[i] == ESC && (i + 1 == |q| || q[i + 1] != b);
      assert i >= 2;
      assert q[2..][i - 2] == q[i];
    }
    if LoneEsc(q[2..], b) {
      var j :| 0 <= j < |q[2..]| && q[2..][j] == ESC && (j + 1 == |q[2..]| || q[2..][j + 1] != b);
      assert q[j + 2] == ESC && (j + 3 == |q| || q[j + 3] != b);
    }
  }

  /** Without a leading pair ESC b, the first byte is a lone ESC or the lone ESC bytes are in the tail. */
  lemma LoneEscFirst(q: seq<Byte>, b: Byte)
    requires |q| >= 2 && !(q[0] == ESC && q[1] == b)
    ensures LoneEsc(q, b) <==> q[0] == ESC || LoneEsc(q[1..], b)
  {
    if LoneEsc(q, b) && q[0] != ESC {
      var i :| 0 <= i < |q| && q[i] == ESC && (i + 1 == |q| || q[i + 1] != b);
      assert q[1..][i - 1] == q[i];
    }
    if q[0] == ESC {
      assert 0 < |q| && q[0] == ESC && q[1] != b;
    }
    if LoneEsc(q[1..], b) {
      var j :| 0 <= j < |q[1..]| && q[1..][j] == ESC && (j + 1 == |q[1..]| || q[1..][j + 1] != b);
      assert q[j + 1] == ESC && (j + 2 == |q| || q[j + 2] != b);
    }
  }

  /** Splitting at a leading pair ESC b and joining drops the pair. */
  lemma FlattenSplitPair(q: seq<Byte>, b: Byte)
    requires |q| >= 2 && q[..2] == [ESC, b]
    ensures Flatten(SplitOn(q, [ESC, b])) == Flatten(SplitOn(q[2..], [ESC, b]))
  {
    assert Flatten(SplitOn(q, [ESC, b])) == [] + Flatten(SplitOn(q[2..], [ESC, b]));
  }

  /** Splitting bytes that do not start with the pair ESC b and joining keeps the first byte. */
  lemma FlattenSplitFirst(q: seq<Byte>, b: Byte)
    requires |q| >= 2 && !(q[0] == ESC && q[1] == b)
    ensures Flatten(SplitOn(q, [ESC, b])) == [q[0]] + Flatten(SplitOn(q[1..], [ESC, b]))
  {
    var sep := [ESC, b];
    assert q[..|sep|] != sep by {
      assert q[..2][0] == q[0] && q[..2][1] == q[1];
    }
    var rest := SplitOn(q[1..], sep);
    assert SplitOn(q, sep) == [[q[0]] + rest[0]] + rest[1..];
    FlattenCons([q[0]] + rest[0], rest[1..]);
    FlattenCons(rest[0], rest[1..]);
    assert [rest[0]] + rest[1..] == rest;
    AppendAssoc([q[0]], rest[0], Flatten(rest[1..]));
  }

  lemma FlattenCons(x: seq<Byte>, ps: seq<seq<Byte>>)
    ensures Flatten([x] + ps) == x + Flatten(ps)
  {
    assert ([x] + ps)[1..] == ps;
  }

  /** Removing the pairs ESC b leaves an ESC exactly when some ESC is not followed by b. */
  lemma {:induction false} RemovePairs(q: seq<Byte>, b: Byte)
    requires b != ESC
    ensures ESC in Flatten(SplitOn(q, [ESC, b])) <==> LoneEsc(q, b)
    decreases |q|
  {
    if |q| < 2 {
      assert Flatten(SplitOn(q, [ESC, b])) == q + [];
      if ESC in q {
        assert q[IndexOf(q, ESC)] == ESC;
      }
    } else if q[..2] == [ESC, b] {
      assert q[0] == ESC && q[1] == b by {
        assert q[..2][0] == q[0] && q[..2][1] == q[1];
      }
      FlattenSplitPair(q, b);
      RemovePairs(q[2..], b);
      LoneEscAfterPair(q, b);
    } else {
      assert !(q[0] == ESC && q[1] == b) by {
        assert q[..2] == [q[0], q[1]];
      }
      FlattenSplitFirst(q, b);
      RemovePairs(q[1..], b);
      LoneEscFirst(q, b);
    }
  }

  /** A piece holds a lone ESC (one not followed by ESC_ESC). */
  predicate SomeLoneEsc(pieces: seq<seq<Byte>>)
  {
    exists k :: 0 <= k < |pieces| && LoneEsc(pieces[k], ESC_ESC)
  }

  /** The joined parts hold an ESC exactly when some piece holds one not followed by ESC_ESC. */
  lemma {:induction false} JoinSplitEscLone(pieces: seq<seq<Byte>>)
    ensures ESC in JoinSplitEsc(pieces) <==> SomeLoneEsc(pieces)
    decreases |pieces|
  {
    if pieces != [] {
      JoinSplitEscLone(pieces[1..]);
      RemovePairs(pieces[0], ESC_ESC);
      if SomeLoneEsc(pieces) {
        var k :| 0 <= k < |pieces| && LoneEsc(pieces[k], ESC_ESC);
        if k > 0 {
          assert pieces[1..][k - 1] == pieces[k];
        }
      }
      if SomeLoneEsc(pieces[1..]) {
        var k :| 0 <= k < |pieces[1..]| && LoneEsc(pieces[1..][k], ESC_ESC);
        assert pieces[k + 1] == pieces[1..][k];
      }
    }
  }

  /** Prepending a byte to the first piece: a lone ESC of the pieces of the tail, or the new byte as one. */
  lemma SomeLoneEscCons(c: Byte, rest: seq<seq<Byte>>)
    requires rest != []
    ensures SomeLoneEsc([[c] + rest[0]] + rest[1..]) <==>
              (c == ESC && (rest[0] == [] || rest[0][0] != ESC_ESC)) || SomeLoneEsc(rest)
  {
    var first := [c] + rest[0];
    var pieces := [first] + rest[1..];
    assert LoneEsc(first, ESC_ESC) <==> (c == ESC && (rest[0] == [] || rest[0][0] != ESC_ESC)) || LoneEsc(rest[0], ESC_ESC) by {
      if c == ESC && (rest[0] == [] || rest[0][0] != ESC_ESC) {
        assert first[0] == ESC && (1 == |first| || first[1] != ESC_ESC);
      }
      if c != ESC {
        assert first[..1] == [c];
        LoneEscTail(first, ESC_ESC, 1);
      }
      if c == ESC && LoneEsc(first, ESC_ESC) && !(rest[0] == [] || rest[0][0] != ESC_ESC) {
        var i :| 0 <= i < |first| && first[i] == ESC && (i + 1 == |first| || first[i + 1] != ESC_ESC);
        assert i > 0 by {
          assert first[1] == rest[0][0];
        }
        assert rest[0][i - 1] == first[i];
      }
      if LoneEsc(rest[0], ESC_ESC) {
        var j :| 0 <= j < |rest[0]| && rest[0][j] == ESC && (j + 1 == |rest[0]| || rest[0][j + 1] != ESC_ESC);
        assert first[j + 1] == ESC && (j + 2 == |first| || first[j + 2] != ESC_ESC);
      }
      if c != ESC {
        assert first[1..] == rest[0];
      }
    }
    if SomeLoneEsc(pieces) {
      var k :| 0 <= k < |pieces| && LoneEsc(pieces[k], ESC_ESC);
      if k > 0 {
        assert rest[k] == pieces[k];
      }
    }
    if SomeLoneEsc(rest) {
      var k :| 0 <= k < |rest| && LoneEsc(rest[k], ESC_ESC);
      if k > 0 {
        assert pieces[k] == rest[k];
      } else {
        assert LoneEsc(pieces[0], ESC_ESC);
      }
    }
    if c == ESC && (rest[0] == [] || rest[0][0] != ESC_ESC) {
      assert LoneEsc(pieces[0], ESC_ESC);
    }
  }

  /** The pieces of the split at ESC ESC_END hold a lone ESC exactly when the packet has a bad ESC. */
  lemma {:induction false} SplitEndLone(p: seq<Byte>)
    ensures SomeLoneEsc(SplitOn(p, EscapedEnd)) <==> BadEsc(p)
    decreases |p|
  {
    var pieces := SplitOn(p, EscapedEnd);
    if |p| < 2 {
      assert pieces == [p];
      assert SomeLoneEsc(pieces) <==> LoneEsc(p, ESC_ESC) by {
        if SomeLoneEsc(pieces) {
          var k :| 0 <= k < |pieces| && LoneEsc(pieces[k], ESC_ESC);
          assert k == 0;
        }
        if LoneEsc(p, ESC_ESC) {
          assert pieces[0] == p;
        }
      }
      assert LoneEsc(p, ESC_ESC) <==> BadEsc(p) by {
        if LoneEsc(p, ESC_ESC) || BadEsc(p) {
          var i :| 0 <= i < |p| && p[i] == ESC;
          assert i + 1 == |p|;
        }
      }
    } else if p[..2] == EscapedEnd {
      SplitEndLone(p[2..]);
      var rest := SplitOn(p[2..], EscapedEnd);
      assert pieces == [[]] + rest;
      assert SomeLoneEsc(pieces) <==> SomeLoneEsc(rest) by {
        if SomeLoneEsc(pieces) {
          var k :| 0 <= k < |pieces| && LoneEsc(pieces[k], ESC_ESC);
          assert k > 0;
          assert rest[k - 1] == pieces[k];
        }
        if SomeLoneEsc(rest) {
          var k :| 0 <= k < |rest| && LoneEsc(rest[k], ESC_ESC);
          assert pieces[k + 1] == rest[k];
        }
      }
      assert p[0] == ESC && p[1] == ESC_END by {
        assert p[..2][0] == p[0] && p[..2][1] == p[1];
      }
      BadEscTail(p, 2);
    } else {
      SplitEndLone(p[1..]);
      var rest := SplitOn(p[1..], EscapedEnd);
      assert pieces == [[p[0]] + rest[0]] + rest[1..];
      SomeLoneEscCons(p[0], rest);
      FirstPiece(p[1..], EscapedEnd);
      assert p[0] == ESC ==> p[1] != ESC_END by {
        assert p[..2] == [p[0], p[1]];
      }
      assert BadEsc(p) <==> (p[0] == ESC && (rest[0] == [] || rest[0][0] != ESC_ESC)) || BadEsc(p[1..]) by {
        if p[0] == ESC {
          if rest[0] == [] {
            assert p[1..][..2] == EscapedEnd;
            assert p[1] == ESC by {
              assert p[1..][..2][0] == p[1];
            }
          } else {
            assert rest[0][0] == p[1];
          }
          assert BadEsc(p) <==> (p[1] != ESC_ESC && p[1] != ESC_END) || BadEsc(p[1..]) by {
            BadEscFirst(p);
          }
        } else {
          BadEscTail(p, 1);
        }
      }
    }
  }

  /** Dropping a first ESC that starts a pair, or bytes that are not ESC, keeps the bad ESC bytes. */
  lemma BadEscTail(p: seq<Byte>, k: nat)
    requires 1 <= k <= 2 && k <= |p|
    requires k == 1 ==> p[0] != ESC
    requires k == 2 ==> p[0] == ESC && (p[1] == ESC_END || p[1] == ESC_ESC)
    ensures BadEsc(p) <==> BadEsc(p[k..])
  {
    if BadEsc(p) {
      var i :| 0 <= i < |p| && p[i] == ESC && (i + 1 == |p| || (p[i + 1] != ESC_END && p[i + 1] != ESC_ESC));
      assert i >= k;
      assert p[k..][i - k] == p[i];
    }
    if BadEsc(p[k..]) {
      var j :| 0 <= j < |p[k..]| && p[k..][j] == ESC && (j + 1 == |p[k..]| || (p[k..][j + 1] != ESC_END && p[k..][j + 1] != ESC_ESC));
      assert p[j + k] == ESC;
    }
  }

  /** With a first ESC followed by another byte: that ESC is bad, or a later one is. */
  lemma BadEscFirst(p: seq<Byte>)
    requires |p| >= 2 && p[0] == ESC
    ensures BadEsc(p) <==> (p[1] != ESC_ESC && p[1] != ESC_END) || BadEsc(p[1..])
  {
    if BadEsc(p) {
      var i :| 0 <= i < |p| && p[i] == ESC && (i + 1 == |p| || (p[i + 1] != ESC_END && p[i + 1] != ESC_ESC));
      if i > 0 {
        assert p[1..][i - 1] == p[i];
      }
    }
    if BadEsc(p[1..]) {
      var j :| 0 <= j < |p[1..]| && p[1..][j] == ESC && (j + 1 == |p[1..]| || (p[1..][j + 1] != ESC_END && p[1..][j + 1] != ESC_ESC));
      assert p[j + 1] == ESC;
    }
  }

  /** A bad ESC is a trailing ESC or one of the bad escapes of the current validity test. */
  lemma BadEscIsInvalidEscape(p: seq<Byte>)
    ensures BadEsc(p) <==> (p != [] && p[|p| - 1] == ESC) || Slip.HasBadEscape(p)
  {
    if BadEsc(p) {
      var i :| 0 <= i < |p| && p[i] == ESC && (i + 1 == |p| || (p[i + 1] != ESC_END && p[i + 1] != ESC_ESC));
      if i + 1 < |p| {
        assert 0 <= i < |p| - 1 && p[i] == ESC && p[i + 1] != ESC_END && p[i + 1] != ESC_ESC;
      }
    }
    if p != [] && p[|p| - 1] == ESC {
      assert 0 <= |p| - 1 < |p| && p[|p| - 1] == ESC && |p| - 1 + 1 == |p|;
    }
    if Slip.HasBadEscape(p) {
      var i :| 0 <= i < |p| - 1 && p[i] == ESC && p[i + 1] != ESC_END && p[i + 1] != ESC_ESC;
      assert 0 <= i < |p| && p[i] == ESC && (p[i + 1] != ESC_END && p[i + 1] != ESC_ESC);
    }
  }

  /**
    The escape check passes exactly when the packet is well escaped; on a
    packet without END, exactly when the current validity test holds.
   */
  lemma EscapeCheckIsValid(p: seq<Byte>)
    ensures EscapeCheck(p).None? <==> Slip.WellEscaped(p)
    ensures END !in p ==> (EscapeCheck(p).None? <==> Slip.IsValid(p))
  {
    JoinSplitEscLone(SplitOn(p, EscapedEnd));
    SplitEndLone(p);
    BadEscIsInvalidEscape(p);
    Slip.EscapeTestsScan(p);
    Slip.ValidIsWellEscaped(p);
  }

  // ---------------------------------------------------------------------------
  // The decoder
  // ---------------------------------------------------------------------------

  /** What decode gives: a packet, None, or a raised SlipDecodingError. */
  datatype Outcome = Packet(msg: seq<Byte>) | NoPacket | Failed(error: DecodeError)

  /**
    decode(obj, final) on the buffer `buffer`: the outcome and the new buffer.
    Leading END bytes are stripped; the packet is the part before the first
    END and the rest, stripped of its leading END bytes, stays buffered; with
    no END a final call takes the whole buffer.  A found packet (or any final
    call) is checked for a stray ESC (the buffer is kept), then, in a final
    call, for bytes left in the buffer (the buffer is emptied), and unescaped.
   */
  function DecodeCall(buffer: seq<Byte>, obj: seq<Byte>, final: bool): (Outcome, seq<Byte>)
  {
    Take(LStripEnd(buffer + obj), final)
  }

  /** The decode of the buffer once the new bytes have joined it and its leading END bytes are stripped. */
  function Take(b: seq<Byte>, final: bool): (Outcome, seq<Byte>)
  {
    var (packet, left) :=
      if END in b then
        var i := IndexOf(b, END);
        (b[..i], LStripEnd(b[i + 1..]))
      else if final then (b, [])
      else ([], b);
    if packet == [] && !final then (NoPacket, left)
    else match EscapeCheck(packet)
      case Some(e) => (Failed(e), left)
      case None =>
        if final && left != [] then (Failed(RemainingBytes(left)), [])
        else (Packet(Slip.ReplaceEscapes(packet)), left)
  }

  class SlipDecoder {
    /** The bytes received and not yet taken as a packet. */
    var inputBuffer: seq<Byte>

    constructor()
      ensures inputBuffer == []
    {
      inputBuffer := [];
    }

    /** decode(obj, errors, final): as DecodeCall says, on the decoder's buffer. */
    method Decode(obj: seq<Byte>, final: bool) returns (r: Outcome)
      modifies this
      ensures (r, inputBuffer) == DecodeCall(old(inputBuffer), obj, final)
    {
      inputBuffer := inputBuffer + obj;
      inputBuffer := LStripEnd(inputBuffer);
      var packet := [];
      if END in inputBuffer {
        var i := IndexOf(inputBuffer, END);
        packet := inputBuffer[..i];
        inputBuffer := LStripEnd(inputBuffer[i + 1..]);
      } else if final {
        packet := inputBuffer;
        inputBuffer := [];
      }
      if packet != [] || final {
        var err := EscapeCheck(packet);
        if err.Some? {
          return Failed(err.value);
        }
        if final && inputBuffer != [] {
          var left := inputBuffer;
          Reset();
          return Failed(RemainingBytes(left));
        }
        return Packet(Slip.ReplaceEscapes(packet));
      }
      r := NoPacket;
    }

    /** reset(): the buffer is emptied. */
    method Reset()
      modifies this
      ensures inputBuffer == []
    {
      inputBuffer := [];
    }
  }

  // ---------------------------------------------------------------------------
  // Properties of decode
  // ---------------------------------------------------------------------------

  /** The first END of bytes that are an END-free packet, END, and more. */
  lemma IndexOfFrame(p: seq<Byte>, more: seq<Byte>)
    requires END !in p
    ensures IndexOf(p + [END] + more, END) == |p|
    ensures (p + [END] + more)[..|p|] == p && (p + [END] + more)[|p| + 1..] == more
  {
    var s := p + [END] + more;
    var i := IndexOf(s, END);
    assert s[|p|] == END;
  }

  /**
    A decode that finds a frame (after any END bytes, an END-free non-empty
    packet and its END) agrees with the current decode of that packet: its
    message when the packet is valid and SlipDecodingError otherwise, an
    escape error then even when a final call finds bytes left over.  The
    bytes after the frame stay buffered, without their leading END bytes,
    unless a final call finds some left, which raises and empties the buffer.
   */
  lemma DecodeFrame(buffer: seq<Byte>, obj: seq<Byte>, p: seq<Byte>, more: seq<Byte>, final: bool)
    requires END !in p && p != [] && LStripEnd(buffer + obj) == p + [END] + more
    ensures var (r, left) := DecodeCall(buffer, obj, final);
            if !Slip.IsValid(p) then
              r.Failed? && (r.error.UnfinishedEscape? || r.error.InvalidEscape?) && left == LStripEnd(more)
            else if final && LStripEnd(more) != [] then r == Failed(RemainingBytes(LStripEnd(more))) && left == []
            else r == Packet(Slip.Decode(p).msg) && left == LStripEnd(more)
  {
    IndexOfFrame(p, more);
    EscapeCheckIsValid(p);
    var b := p + [END] + more;
    assert END in b by {
      assert b[|p|] == END;
    }
  }

  /** A non-final decode that finds no END returns None and keeps the bytes, without their leading END bytes. */
  lemma DecodeNoEnd(buffer: seq<Byte>, obj: seq<Byte>)
    requires END !in LStripEnd(buffer + obj)
    ensures DecodeCall(buffer, obj, false) == (NoPacket, LStripEnd(buffer + obj))
  {
  }

  /**
    A final decode that finds no END takes the whole buffer as the packet: its
    message when it is valid, SlipDecodingError for its escape otherwise; the
    buffer is empty after it.
   */
  lemma FinalDecodeNoEnd(buffer: seq<Byte>, obj: seq<Byte>)
    requires END !in LStripEnd(buffer + obj)
    ensures var p := LStripEnd(buffer + obj);
            var (r, left) := DecodeCall(buffer, obj, true);
            left == [] &&
            if Slip.IsValid(p) then r == Packet(Slip.Decode(p).msg)
            else r.Failed? && (r.error.UnfinishedEscape? || r.error.InvalidEscape?)
  {
    EscapeCheckIsValid(LStripEnd(buffer + obj));
  }

  /** Chunks without END can be fed one by one: the next call decodes as if they had come together. */
  lemma DecodeInPieces(buffer: seq<Byte>, x: seq<Byte>, y: seq<Byte>, final: bool)
    requires END !in LStripEnd(buffer + x)
    ensures DecodeCall(DecodeCall(buffer, x, false).1, y, final) == DecodeCall(buffer, x + y, final)
  {
    var b := LStripEnd(buffer + x);
    DecodeNoEnd(buffer, x);
    LStripEndAppend(buffer + x, y);
    LStripEndAppend(b, y);
    assert buffer + x + y == buffer + (x + y);
    if b != [] {
      assert LStripEnd(b) == b;
    }
    assert LStripEnd(b + y) == LStripEnd(buffer + (x + y));
  }

  /** decode(encode(m)) == m: the final decode of what the final encode gives, the empty message included. */
  lemma DecodeEncode(msg: seq<Byte>)
    ensures DecodeCall([], Frame(msg), true) == (Packet(msg), [])
  {
    if msg == [] {
      assert LStripEnd([] + []) == [];
      EscapeCheckIsValid([]);
      assert Slip.ReplaceEscapes([]) == [];
    } else {
      var e := Slip.Encode(msg);
      Slip.DecodeEncode(msg);
      Slip.EncodeLength(msg);
      assert [] + Frame(msg) == [END] + (e + [END]);
      LStripEndPrefix([END], e + [END]);
      DecodeFrame([], Frame(msg), e, [], true);
    }
  }

  /** Each frame of the framed messages decodes, in order, to its message, non-final calls included. */
  lemma DecodeEncodeStream(msg: seq<Byte>, more: seq<Byte>, final: bool)
    requires msg != []
    ensures DecodeCall([], Frame(msg) + more, final) ==
              if final && LStripEnd(more) != [] then (Failed(RemainingBytes(LStripEnd(more))), [])
              else (Packet(msg), LStripEnd(more))
  {
    var e := Slip.Encode(msg);
    FrameStripped(msg, more);
    DecodeFrame([], Frame(msg) + more, e, more, final);
  }

  /** A frame followed by more bytes, stripped of leading END bytes, is the valid encoding, END, then the rest. */
  lemma FrameStripped(msg: seq<Byte>, more: seq<Byte>)
    requires msg != []
    ensures var e := Slip.Encode(msg);
            END !in e && e != [] && LStripEnd([] + (Frame(msg) + more)) == e + [END] + more &&
            Slip.IsValid(e) && Slip.Decode(e).msg == msg
  {
    var e := Slip.Encode(msg);
    Slip.DecodeEncode(msg);
    assert Slip.IsValid(e);
    assert END !in e;
    Slip.EncodeLength(msg);
    assert e[0] != END;
    var t := e + [END] + more;
    assert t[0] == e[0];
    var f := Frame(msg);
    assert f == [END] + e + [END];
    assert [] + (f + more) == f + more;
    AppendAssoc([END], e, [END]);
    AppendAssoc([END], e + [END], more);
    LStripEndPrefix([END], t);
  }


}
