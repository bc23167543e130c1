/**
  The legacy framed codec of src/sliplib/legacy.py: encode adds the optional
  leading END and the closing END around the current encoding, and decode
  strips END bytes from both ends before decoding.
 */
module Legacy {
  import opened SlipBytes
  import Slip
  import SlipConfig

  /** encode(message): a leading END if USE_LEADING_END_BYTE is set now, the encoding, and END. */
  function Encode(config: SlipConfig.Configuration, message: seq<Byte>): seq<Byte>
    reads config
  {
    (if config.useLeadingEndByte then [END] else []) + Slip.Encode(message) + [END]
  }

  /**
    decode(packet): the packet without its leading and trailing END bytes,
    decoded; the ProtocolError carries the stripped packet.
   */
  function Decode(packet: seq<Byte>): (r: Slip.Decoded)
    ensures r.ProtocolError? <==> !Slip.IsValid(StripEnd(packet))
    ensures r.ProtocolError? ==> r.packet == StripEnd(packet)
    ensures r.Message? ==> Slip.Encode(r.msg) == StripEnd(packet)
  {
    Slip.Decode(StripEnd(packet))
  }

  /** Any number of END bytes around an encoded message are ignored by decode. */
  lemma DecodeFramed(pre: seq<Byte>, message: seq<Byte>, post: seq<Byte>)
    requires forall i :: 0 <= i < |pre| ==> pre[i] == END
    requires forall i :: 0 <= i < |post| ==> post[i] == END
    ensures Decode(pre + Slip.Encode(message) + post) == Slip.Message(message)
  {
    Slip.EncodeEscapes(message);
    Slip.EscapeIsWellEscaped(message);
    StripEndFramed(pre, Slip.Encode(message), post);
    Slip.DecodeEncode(message);
  }

  /** decode(encode(m)) == m, with and without the leading END. */
  lemma DecodeEncode(config: SlipConfig.Configuration, message: seq<Byte>)
    ensures Decode(Encode(config, message)) == Slip.Message(message)
  {
    DecodeFramed(if config.useLeadingEndByte then [END] else [], message, [END]);
  }

  /**
    The output of encode ends with END, and has no other END than, when the
    leading END is configured, its first byte.
   */
  lemma EncodeFraming(config: SlipConfig.Configuration, message: seq<Byte>)
    ensures var r := Encode(config, message);
            r != [] && r[|r| - 1] == END &&
            (config.useLeadingEndByte ==> r[0] == END) &&
            forall i :: 0 <= i < |r| - 1 && r[i] == END ==> i == 0 && config.useLeadingEndByte
  {
    Slip.EncodeEscapes(message);
    Slip.EscapeIsWellEscaped(message);
  }
}
