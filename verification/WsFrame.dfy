/** WebSocket framing helpers of src/ws.rs against the base framing protocol of sections 5.2, 5.3 and 5.5
    of RFC 6455. A length field keeps 7 bits of the second byte, so masks are written as remainders. */
module WsFrame {
  import opened Bytes
  import opened Protocol

  const OPCODE_TEXT := 1
  const OPCODE_CLOSE := 8
  const OPCODE_PING := 9
  const OPCODE_PONG := 10

  type Key = k: seq<byte> | |k| == 4 witness [0, 0, 0, 0]

  // ---- masking ---------------------------------------------------------------------------

  /** The payload with octet i combined with key octet i modulo 4. */
  function Masked(data: seq<byte>, key: Key): (r: seq<byte>)
    ensures |r| == |data|
  {
    seq(|data|, i requires 0 <= i < |data| => Xor(data[i], key[i % 4]))
  }

  /** Masking is its own inverse. */
  lemma MaskTwice(data: seq<byte>, key: Key)
    ensures Masked(Masked(data, key), key) == data
  {
    hide Xor;
    forall i | 0 <= i < |data|
      ensures Masked(Masked(data, key), key)[i] == data[i]
    {
      XorTwice(data[i], key[i % 4]);
    }
  }

  /** Every bit of octet i is flipped exactly where key octet i modulo 4 has a one bit. */
  predicate FlippedBy(result: seq<byte>, data: seq<byte>, key: Key) {
    |result| == |data| &&
    forall i, j | 0 <= i < |data| && 0 <= j < 8 ::
      Bits(result[i], 8)[j] == (Bits(data[i], 8)[j] != Bits(key[i % 4], 8)[j])
  }

  lemma MaskedFlips(data: seq<byte>, key: Key)
    ensures FlippedBy(Masked(data, key), data, key)
  {
    hide Bits;
    forall i, j | 0 <= i < |data| && 0 <= j < 8
      ensures Bits(Masked(data, key)[i], 8)[j] == (Bits(data[i], 8)[j] != Bits(key[i % 4], 8)[j])
    {
      XorBitsMeans(data[i], key[i % 4], 8, j);
    }
  }

  /** `unmask` on the first `n` bytes of a buffer. */
  method Unmask(buf: array<byte>, n: nat, key: Key)
    requires n <= buf.Length
    modifies buf
    ensures buf[..n] == Masked(old(buf[..n]), key) && FlippedBy(buf[..n], old(buf[..n]), key)
    ensures buf[n..] == old(buf[n..])
  {
    hide Xor, FlippedBy;
    MaskedFlips(buf[..n], key);
    for i := 0 to n
      invariant buf[..i] == Masked(old(buf[..n]), key)[..i]
      invariant buf[i..] == old(buf[i..])
    {
      buf[i] := Xor(buf[i], key[i % 4]);
    }
  }

  // ---- the wire format -------------------------------------------------------------------

  /** A frame of section 5.2. `flags` are FIN and the reserved bits, `extended` the 16-bit length form. */
  datatype Frame = Frame(flags: nat, opcode: nat, mask: Option<Key>, extended: bool, payload: seq<byte>)

  predicate WellFormed(f: Frame) {
    && f.flags < 16 && f.opcode < 16
    && |f.payload| < 65536
    && (!f.extended ==> |f.payload| <= 125)
  }

  function LengthField(n: nat, extended: bool, masked: bool): (s: seq<byte>)
    requires n < 65536 && (!extended ==> n <= 125)
  {
    var high := if masked then 128 else 0;
    if extended then [high + 126, n / 256, n % 256] else [high + n]
  }

  function HeaderBytes(f: Frame): seq<byte>
    requires WellFormed(f)
  {
    [(f.flags * 16 + f.opcode) as byte] + LengthField(|f.payload|, f.extended, f.mask.Some?)
    + (if f.mask.Some? then f.mask.value else [])
  }

  function FrameBytes(f: Frame): seq<byte>
    requires WellFormed(f)
  {
    HeaderBytes(f) + (if f.mask.Some? then Masked(f.payload, f.mask.value) else f.payload)
  }

  /** The unmasked text frame a server sends, shortest length form. */
  function TextFrame(payload: seq<byte>): Frame {
    Frame(8, OPCODE_TEXT, None, |payload| > 125, payload)
  }

  function PongFrame(payload: seq<byte>): Frame {
    Frame(8, OPCODE_PONG, None, false, payload)
  }

  // ---- encoders --------------------------------------------------------------------------

  method EncodeTextFrameHeader(payloadLen: nat, out: array<byte>) returns (r: Result<nat, ErrorCode>)
    modifies out
    ensures r.Ok? <==> payloadLen <= 1024 && out.Length >= (if payloadLen <= 125 then 2 else 4)
    ensures r.Ok? ==> r.value == (if payloadLen <= 125 then 2 else 4) && r.value <= out.Length
                      && out[..r.value] == (if payloadLen <= 125 then [0x81, payloadLen]
                                            else [0x81, 126, payloadLen / 256, payloadLen % 256])
                      && out[r.value..] == old(out[r.value..])
    ensures r.Err? ==> r.error == MsgTooLarge && out[..] == old(out[..])
  {
    if payloadLen > MAX_MSG_LEN {
      return Err(MsgTooLarge);
    }
    if payloadLen <= 125 {
      if out.Length < 2 {
        return Err(MsgTooLarge);
      }
      out[0] := 0x81;
      out[1] := payloadLen;
      return Ok(2);
    } else {
      if out.Length < 4 {
        return Err(MsgTooLarge);
      }
      out[0] := 0x81;
      out[1] := 126;
      out[2] := payloadLen / 256;
      out[3] := payloadLen % 256;
      return Ok(4);
    }
  }

  /** `encode_text_frame`: on success exactly the text frame of the payload, nothing beyond it touched. */
  method EncodeTextFrame(payload: seq<byte>, out: array<byte>) returns (r: Result<nat, ErrorCode>)
    modifies out
    ensures r.Ok? <==> |payload| <= 1024 && |FrameBytes(TextFrame(payload))| <= out.Length
    ensures r.Ok? ==> r.value <= out.Length && out[..r.value] == FrameBytes(TextFrame(payload))
                      && out[r.value..] == old(out[r.value..])
  {
    r := EncodeTextFrameHeader(|payload|, out);
    if r.Err? {
      return;
    }
    var headerLen := r.value;
    var total := headerLen + |payload|;
    if total > out.Length {
      return Err(MsgTooLarge);
    }
    CopyInto(payload, out, headerLen);
    r := Ok(total);
  }

  method EncodePongFrame(payload: seq<byte>, out: array<byte>) returns (r: Result<nat, ErrorCode>)
    modifies out
    ensures r.Ok? <==> |payload| <= 125 && 2 + |payload| <= out.Length
    ensures r.Ok? ==> r.value == 2 + |payload| && out[..r.value] == FrameBytes(PongFrame(payload))
                      && out[r.value..] == old(out[r.value..])
  {
    if |payload| > 125 {
      return Err(MsgTooLarge);
    }
    var total := 2 + |payload|;
    if out.Length < total {
      return Err(MsgTooLarge);
    }
    out[0] := 0x80 + OPCODE_PONG;
    out[1] := |payload|;
    CopyInto(payload, out, 2);
    r := Ok(total);
  }

  // ---- header parsing ----------------------------------------------------------------------

  datatype Header = Header(headerLen: nat, payloadLen: nat, opcode: nat, maskKey: Key, masked: bool)

  /** `parse_frame_header`. */
  function ParseFrameHeader(raw: seq<byte>): (r: Option<Header>)
    ensures r.Some? ==> 2 <= r.value.headerLen <= |raw| && r.value.payloadLen < 65536 && r.value.opcode < 16
  {
    if |raw| < 2 then None
    else
      var opcode := raw[0] % 16;
      var masked := raw[1] >= 128;
      var len7 := raw[1] % 128;
      if len7 == 127 || (len7 == 126 && |raw| < 4) then None
      else
        var payloadLen := if len7 <= 125 then len7 as int else (raw[2] as int) * 256 + raw[3];
        var extLen := if len7 <= 125 then 0 else 2;
        var headerLen := 2 + extLen + (if masked then 4 else 0);
        if |raw| < headerLen then None
        else Some(Header(headerLen, payloadLen, opcode,
                         if masked then raw[2 + extLen..6 + extLen] else [0, 0, 0, 0], masked))
  }

  /** The answer depends only on the header's own bytes: it is the same for those bytes alone and never
      changes when more bytes arrive. */
  lemma HeaderDependsOnPrefix(raw: seq<byte>, more: seq<byte>)
    requires ParseFrameHeader(raw).Some?
    ensures ParseFrameHeader(raw[..ParseFrameHeader(raw).value.headerLen]) == ParseFrameHeader(raw)
    ensures ParseFrameHeader(raw + more) == ParseFrameHeader(raw)
  {
    var n := ParseFrameHeader(raw).value.headerLen;
    assert raw[1] % 128 == 126 ==> n >= 4;
    if raw[1] >= 128 {
      assert raw[..n][n - 4..n] == raw[n - 4..n] == (raw + more)[n - 4..n];
    }
  }

  /** No strict prefix of a header parses. */
  lemma HeaderNeedsAllBytes(raw: seq<byte>, k: nat)
    requires ParseFrameHeader(raw).Some? && k < ParseFrameHeader(raw).value.headerLen
    ensures ParseFrameHeader(raw[..k]) == None
  {
  }

  /** Parsing inverts the wire format: every frame header, with anything after it, gives back its fields. */
  lemma ParseOfHeader(f: Frame, rest: seq<byte>)
    requires WellFormed(f)
    ensures ParseFrameHeader(HeaderBytes(f) + rest) ==
            Some(Header(|HeaderBytes(f)|, |f.payload|, f.opcode,
                        if f.mask.Some? then f.mask.value else [0, 0, 0, 0], f.mask.Some?))
  {
    var raw := HeaderBytes(f) + rest;
    assert raw[0] == f.flags * 16 + f.opcode;
    assert raw[0] % 16 == f.opcode;
    var n := |HeaderBytes(f)|;
    if f.mask.Some? {
      assert raw[n - 4..n] == f.mask.value;
    }
  }

  /** Parsing an encoded text frame gives its length, opcode and payload offset. */
  lemma ParseOfTextFrame(payload: seq<byte>)
    requires |payload| <= MAX_MSG_LEN
    ensures (var raw := FrameBytes(TextFrame(payload));
             ParseFrameHeader(raw).Some? &&
             (var h := ParseFrameHeader(raw).value;
              h.opcode == OPCODE_TEXT && h.payloadLen == |payload| && !h.masked && raw[h.headerLen..] == payload))
  {
    ParseOfHeader(TextFrame(payload), payload);
  }
}
