/** `WsTransport` of src/net.rs: reading and answering WebSocket frames on a socket. */
module WsTransport {
  import opened Bytes
  import opened Protocol
  import opened Sockets
  import opened WsFrame

  // ---- what a stream of bytes means ----------------------------------------------------------

  datatype Head = NeedMore | TooLarge | Complete(header: Header)

  /** Header reading stated through `parse_frame_header`: rejected as soon as the length bytes show a length
      above 1024 (or the 64-bit form), otherwise exactly what `parse_frame_header` answers. */
  function ReadHead(bytes: seq<byte>): (h: Head)
    ensures h.Complete? ==> h.header.payloadLen <= MAX_MSG_LEN && 2 <= h.header.headerLen <= |bytes|
  {
    if |bytes| >= 2 && bytes[1] % 128 == 127 then TooLarge
    else if |bytes| >= 4 && bytes[1] % 128 == 126 && (bytes[2] as int) * 256 + bytes[3] > MAX_MSG_LEN then TooLarge
    else
      var p := ParseFrameHeader(bytes);
      if p.None? then NeedMore else Complete(p.value)
  }

  /** One `read_frame`: its result, the writes it makes and the bytes left. */
  datatype Incoming = Incoming(result: Result<seq<byte>, TransportError>, replies: seq<seq<byte>>, rest: seq<byte>)

  function WithReplies(replies: seq<seq<byte>>, i: Incoming): Incoming {
    i.(replies := replies + i.replies)
  }

  function Unmasked(h: Header, data: seq<byte>): (r: seq<byte>)
    ensures |r| == |data|
  {
    if h.masked then Masked(data, h.maskKey) else data
  }

  function PongReplies(payload: seq<byte>): seq<seq<byte>> {
    if |payload| <= 125 then [FrameBytes(PongFrame(payload))] else []
  }

  /** The replies that can be written: none on an aborted socket. */
  function Heard(replies: seq<seq<byte>>, aborted: bool): seq<seq<byte>> {
    if aborted then [] else replies
  }

  lemma HeardMore(already: seq<seq<byte>>, a: seq<seq<byte>>, b: seq<seq<byte>>, aborted: bool)
    ensures already + Heard(a, aborted) + Heard(b, aborted) == already + Heard(a + b, aborted)
    ensures |Heard(a + b, aborted)| == |Heard(a, aborted)| + |Heard(b, aborted)|
    ensures already + Heard([], aborted) == already && Heard([], aborted) == [] && a + [] == a
    ensures Heard(b, aborted) == if aborted then [] else b
  {
  }

  const CLOSE_REPLY: seq<byte> := [0x88, 0x00]

  /** The bytes behind a length that is too large. */
  function AfterLength(bytes: seq<byte>): seq<byte> {
    var n := Min(|bytes|, if |bytes| >= 2 && bytes[1] % 128 == 127 then 2 else 4);
    bytes[n..]
  }

  /** What happens once a whole frame has been read. */
  function AfterFrame(opcode: nat, payload: seq<byte>, rest: seq<byte>, end: TransportError): (i: Incoming)
    ensures |i.rest| <= |rest| && (i.result.Ok? ==> |i.result.value| <= Max(MAX_MSG_LEN, |payload|))
    decreases |rest|, 1
  {
    if opcode == OPCODE_TEXT then Incoming(Ok(payload), [], rest)
    else if opcode == OPCODE_CLOSE then Incoming(Err(Disconnected), [CLOSE_REPLY], rest)
    else if opcode == OPCODE_PING then WithReplies(PongReplies(payload), ReadFrameOf(rest, end))
    else ReadFrameOf(rest, end)
  }

  function ReadFrameOf(bytes: seq<byte>, end: TransportError): (i: Incoming)
    ensures i.result.Ok? ==> |i.result.value| <= MAX_MSG_LEN
    ensures |i.rest| <= |bytes| && (i.result != Err(end) ==> |i.rest| + 2 <= |bytes|)
    decreases |bytes|, 0
  {
    var head := ReadHead(bytes);
    if head.NeedMore? then Incoming(Err(end), [], [])
    else if head.TooLarge? then Incoming(Err(ProtocolError(MsgTooLarge)), [], AfterLength(bytes))
    else
      var h := head.header;
      var total := h.headerLen + h.payloadLen;
      if |bytes| < total then Incoming(Err(end), [], [])
      else
        var payload := Unmasked(h, bytes[h.headerLen..total]);
        AfterFrame(h.opcode, payload, bytes[total..], end)
  }

  // ---- the transport -------------------------------------------------------------------------

  /** `read_exact` into `buf[..n]`. */
  method ReadExact(socket: Socket, buf: array<byte>, n: nat) returns (r: Option<TransportError>)
    requires n <= buf.Length
    modifies socket`script, buf
    ensures r.None? <==> n <= |old(socket.Pending())|
    ensures r.None? ==> buf[..n] == old(socket.Pending())[..n] && socket.Pending() == old(socket.Pending())[n..]
                        && socket.End() == old(socket.End())
    ensures r.Some? ==> r.value == old(socket.End()) && socket.Pending() == [] && socket.End() == old(socket.End())
  {
    var offset := 0;
    ghost var all := socket.Pending();
    while offset < n
      invariant 0 <= offset <= n && offset <= |all|
      invariant buf[..offset] == all[..offset]
      invariant socket.Pending() == all[offset..] && socket.End() == old(socket.End())
    {
      var got := socket.Read(buf, offset, n);
      if got.Failed? {
        return Some(got.error);
      }
      TakeAppend(all, offset, offset + got.n);
      assert all[offset..][..got.n] == all[offset..offset + got.n];
      offset := offset + got.n;
    }
    r := None;
  }

  /** `ReadHead` byte by byte. */
  lemma HeadCases(bytes: seq<byte>)
    ensures |bytes| < 2 ==> ReadHead(bytes) == NeedMore
    ensures |bytes| >= 2 ==> (
      var len7 := bytes[1] % 128;
      && (len7 == 127 ==> ReadHead(bytes) == TooLarge)
      && (len7 == 126 && |bytes| < 4 ==> ReadHead(bytes) == NeedMore)
      && (len7 < 127 && (len7 == 126 ==> |bytes| >= 4) ==> (
        var len := if len7 < 126 then len7 as int else (bytes[2] as int) * 256 + bytes[3];
        var ext := if len7 < 126 then 2 else 4;
        if len > MAX_MSG_LEN then ReadHead(bytes) == TooLarge
        else if bytes[1] < 128 then
          ReadHead(bytes) == Complete(Header(ext, len, bytes[0] % 16, [0, 0, 0, 0], false))
        else if |bytes| < ext + 4 then ReadHead(bytes) == NeedMore
        else ReadHead(bytes) == Complete(Header(ext + 4, len, bytes[0] % 16, bytes[ext..ext + 4], true)))))
  {
  }

  /** The header part of `read_frame`, read piece by piece. */
  method ReadHeader(socket: Socket) returns (r: Result<Header, TransportError>)
    modifies socket`script
    ensures var head := ReadHead(old(socket.Pending()));
            && (r.Ok? <==> head.Complete?)
            && (r.Ok? ==> r.value == head.header && socket.Pending() == old(socket.Pending())[head.header.headerLen..]
                          && socket.End() == old(socket.End()))
            && (r.Err? ==> r.error == (if head.TooLarge? then ProtocolError(MsgTooLarge) else old(socket.End()))
                           && socket.Pending() == (if head.TooLarge? then AfterLength(old(socket.Pending())) else [])
                           && socket.End() == old(socket.End()))
  {
    hide ReadHead, ParseFrameHeader, Socket.Pending, Socket.End;
    ghost var bytes := socket.Pending();
    HeadCases(bytes);
    var hdr := new byte[2](_ => 0);
    var fail := ReadExact(socket, hdr, 2);
    if fail.Some? {
      return Err(fail.value);
    }
    var opcode := hdr[0] % 16;
    var masked := hdr[1] >= 128;
    var len7 := hdr[1] % 128;
    var payloadLen: nat := len7;
    var n := 2;
    if len7 == 126 {
      var ext := new byte[2](_ => 0);
      fail := ReadExact(socket, ext, 2);
      if fail.Some? {
        return Err(fail.value);
      }
      payloadLen := (ext[0] as int) * 256 + ext[1];
      n := 4;
      assert bytes[2..][2..] == bytes[4..];
      assert ext[0] == bytes[2] && ext[1] == bytes[3];
    } else if len7 == 127 {
      return Err(ProtocolError(MsgTooLarge));
    }
    if payloadLen > MAX_MSG_LEN {
      return Err(ProtocolError(MsgTooLarge));
    }
    var key: Key := [0, 0, 0, 0];
    if masked {
      var keyBuf := new byte[4](_ => 0);
      fail := ReadExact(socket, keyBuf, 4);
      if fail.Some? {
        return Err(fail.value);
      }
      key := keyBuf[..];
      assert bytes[n..][..4] == bytes[n..n + 4] && bytes[n..][4..] == bytes[n + 4..];
      n := n + 4;
    }
    r := Ok(Header(n, payloadLen, opcode, key, masked));
  }

  /** The payload part of `read_frame`: read, then unmasked in place. */
  method ReadPayload(socket: Socket, buf: array<byte>, h: Header) returns (fail: Option<TransportError>)
    requires h.payloadLen <= buf.Length
    modifies socket`script, buf
    ensures fail.None? <==> h.payloadLen <= |old(socket.Pending())|
    ensures fail.None? ==> buf[..h.payloadLen] == Unmasked(h, old(socket.Pending())[..h.payloadLen])
                           && socket.Pending() == old(socket.Pending())[h.payloadLen..]
                           && socket.End() == old(socket.End())
    ensures fail.Some? ==>
              fail.value == old(socket.End()) && socket.Pending() == [] && socket.End() == old(socket.End())
  {
    fail := None;
    if h.payloadLen > 0 {
      fail := ReadExact(socket, buf, h.payloadLen);
      if fail.None? && h.masked {
        Unmask(buf, h.payloadLen, h.maskKey);
      }
    }
  }

  /** Answering a ping: a pong with the same payload, unless that is too long for a control frame. */
  method SendPong(socket: Socket, buf: array<byte>, n: nat)
    requires n <= buf.Length
    modifies socket`written, socket`writeResults
    ensures socket.written == old(socket.written) + Heard(PongReplies(buf[..n]), socket.aborted)
    ensures socket.writeResults == Later(old(socket.writeResults), |Heard(PongReplies(buf[..n]), socket.aborted)|)
  {
    hide Socket.Pending, Socket.End;
    LaterWrites(socket.writeResults, 0, 0);
    var pong := new byte[127](_ => 0);
    var encoded := EncodePongFrame(buf[..n], pong);
    if encoded.Ok? {
      var _ := socket.WriteAll(pong[..encoded.value]);
    }
  }

  /** One frame of the stream, once its header is known. */
  lemma FrameStep(bytes: seq<byte>, end: TransportError)
    ensures (var head, i := ReadHead(bytes), ReadFrameOf(bytes, end);
             && (head.NeedMore? ==> i == Incoming(Err(end), [], []))
             && (head.TooLarge? ==> i == Incoming(Err(ProtocolError(MsgTooLarge)), [], AfterLength(bytes)))
             && (head.Complete? ==>
                   var h := head.header;
                   var body := bytes[h.headerLen..];
                   if |body| < h.payloadLen then i == Incoming(Err(end), [], [])
                   else i == AfterFrame(h.opcode, Unmasked(h, body[..h.payloadLen]), body[h.payloadLen..], end)))
  {
    hide ReadHead, Unmasked, PongReplies, WithReplies;
    var head := ReadHead(bytes);
    if head.Complete? {
      var h := head.header;
      var body, total := bytes[h.headerLen..], h.headerLen + h.payloadLen;
      if |body| >= h.payloadLen {
        assert body[..h.payloadLen] == bytes[h.headerLen..total] && body[h.payloadLen..] == bytes[total..];
      }
    }
  }

  lemma WithRepliesTwice(a: seq<seq<byte>>, b: seq<seq<byte>>, i: Incoming)
    ensures WithReplies(a, WithReplies(b, i)) == WithReplies(a + b, i)
    ensures WithReplies([], i) == i
    ensures WithReplies(a, i) == i.(replies := a + i.replies)
  {
    assert a + (b + i.replies) == a + b + i.replies;
  }

  /** Reading one frame whole, of any opcode; a failure aborts the connection. */
  method ReadWhole(socket: Socket, buf: array<byte>) returns (r: Result<Header, TransportError>)
    requires buf.Length >= MAX_MSG_LEN
    modifies socket`script, socket`aborted, buf
    ensures var bytes, end := old(socket.Pending()), old(socket.End());
            && var i := ReadFrameOf(bytes, end);
            && (r.Ok? ==>
                  && r.value.payloadLen <= MAX_MSG_LEN && |socket.Pending()| < |bytes|
                  && socket.End() == end && socket.aborted == old(socket.aborted)
                  && i == AfterFrame(r.value.opcode, buf[..r.value.payloadLen], socket.Pending(), end))
            && (r.Err? ==>
                  && i.result == Err(r.error) && i.replies == [] && socket.aborted
                  && Left(socket.Pending(), socket.End(), i.rest, end, !old(socket.aborted), socket.surviving))
  {
    hide ReadFrameOf, ReadHead, Unmasked, AfterFrame, AfterLength, Socket.Pending, Socket.End;
    FrameStep(socket.Pending(), socket.End());
    var head := ReadHeader(socket);
    if head.Err? {
      socket.Abort();
      return Err(head.error);
    }
    var fail := ReadPayload(socket, buf, head.value);
    if fail.Some? {
      socket.Abort();
      return Err(fail.value);
    }
    r := head;
  }

  /** `read_frame` of `WsTransport`: header bytes, extended length, mask key and payload are read one after
      the other; pings are answered, a close is answered and ends the connection, other opcodes are skipped. */
  method ReadFrame(socket: Socket, buf: array<byte>) returns (r: Result<nat, TransportError>)
    requires buf.Length >= MAX_MSG_LEN
    modifies socket, buf
    ensures var i := ReadFrameOf(old(socket.Pending()), old(socket.End()));
            && var replies := Heard(i.replies, old(socket.aborted));
            && socket.written == old(socket.written) + replies
            && socket.writeResults == Later(old(socket.writeResults), |replies|)
            && (r.Ok? <==> i.result.Ok?)
            && (r.Ok? ==> r.value <= MAX_MSG_LEN && buf[..r.value] == i.result.value)
            && (r.Err? ==> r.error == i.result.error)
            && (socket.aborted <==> old(socket.aborted) || r.Err?)
            && Left(socket.Pending(), socket.End(), i.rest, old(socket.End()), r.Err? && !old(socket.aborted),
                    socket.surviving)
  {
    hide ReadFrameOf, PongReplies, WithReplies, Heard, Later, WriteOk, Survivors, Socket.Pending, Socket.End;
    LaterWrites(socket.writeResults, 0, 0);
    HeardMore(socket.written, [], [], socket.aborted);
    ghost var goal := ReadFrameOf(socket.Pending(), socket.End());
    WithRepliesTwice([], [], goal);
    ghost var replies: seq<seq<byte>>, end, closed := [], socket.End(), socket.aborted;
    while true
      invariant socket.End() == end && socket.aborted == closed
      invariant socket.written == old(socket.written) + Heard(replies, closed)
      invariant socket.writeResults == Later(old(socket.writeResults), |Heard(replies, closed)|)
      invariant goal == WithReplies(replies, ReadFrameOf(socket.Pending(), end))
      decreases |socket.Pending()|
    {
      WithRepliesTwice(replies, [], ReadFrameOf(socket.Pending(), end));
      LaterWrites(old(socket.writeResults), |Heard(replies, closed)|, 1);
      HeardMore(old(socket.written), replies, [], closed);
      var frame := ReadWhole(socket, buf);
      if frame.Err? {
        return Err(frame.error);
      }
      var h := frame.value;
      ghost var payload := buf[..h.payloadLen];
      HeardMore(old(socket.written), replies, PongReplies(payload), closed);
      HeardMore(old(socket.written), replies, [CLOSE_REPLY], closed);
      LaterWrites(old(socket.writeResults), |Heard(replies, closed)|, |Heard(PongReplies(payload), closed)|);
      WithRepliesTwice(replies, PongReplies(payload), ReadFrameOf(socket.Pending(), end));
      if h.opcode == OPCODE_TEXT {
        return Ok(h.payloadLen);
      } else if h.opcode == OPCODE_CLOSE {
        var _ := socket.WriteAll(CLOSE_REPLY);
        socket.Abort();
        return Err(Disconnected);
      } else if h.opcode == OPCODE_PING {
        SendPong(socket, buf, h.payloadLen);
        replies := replies + PongReplies(payload);
      }
    }
  }

  /** The two writes of `write_frame`. */
  function Packets(data: seq<byte>): seq<seq<byte>>
    requires |data| <= MAX_MSG_LEN
  {
    [HeaderBytes(TextFrame(data)), data]
  }

  /** `write_frame`: the header and the payload are two writes; a failed one aborts the connection. */
  method WriteFrame(socket: Socket, data: seq<byte>) returns (r: Result<(), TransportError>)
    modifies socket
    ensures |data| > MAX_MSG_LEN ==> r == Err(ProtocolError(MsgTooLarge)) && socket.written == old(socket.written)
                                     && socket.writeResults == old(socket.writeResults)
                                     && socket.aborted == old(socket.aborted)
                                     && socket.Pending() == old(socket.Pending()) && socket.End() == old(socket.End())
    ensures |data| <= MAX_MSG_LEN ==>
              (r.Ok? <==> !old(socket.aborted) && AllSent(Packets(data), old(socket.writeResults)))
    ensures |data| <= MAX_MSG_LEN && !old(socket.aborted) ==>
              && socket.written == old(socket.written) + Attempted(Packets(data), old(socket.writeResults))
              && socket.writeResults == Later(old(socket.writeResults),
                                              |Attempted(Packets(data), old(socket.writeResults))|)
    ensures |data| <= MAX_MSG_LEN && old(socket.aborted) ==>
              socket.written == old(socket.written) && socket.writeResults == old(socket.writeResults)
    ensures |data| <= MAX_MSG_LEN ==>
              && socket.aborted == r.Err? && (r.Err? ==> r.error == Disconnected)
              && Left(socket.Pending(), socket.End(), old(socket.Pending()), old(socket.End()),
                      r.Err? && !old(socket.aborted), socket.surviving)
  {
    var hdr := new byte[4](_ => 0);
    var encoded := EncodeTextFrameHeader(|data|, hdr);
    if encoded.Err? {
      return Err(ProtocolError(encoded.error));
    }
    assert hdr[..encoded.value] == HeaderBytes(TextFrame(data));
    LaterWrites(socket.writeResults, 1, 0);
    LaterWrites(socket.writeResults, 1, 1);
    assert Packets(data)[1..] == [data] && [data][1..] == [];
    var ok := socket.WriteAll(hdr[..encoded.value]);
    if !ok {
      socket.Abort();
      return Err(Disconnected);
    }
    ok := socket.WriteAll(data);
    if !ok {
      socket.Abort();
      return Err(Disconnected);
    }
    r := Ok(());
  }

  // ---- whole streams -------------------------------------------------------------------------

  /** The two header readers agree: a header is complete for the transport exactly when `parse_frame_header`
      accepts the bytes and the length is at most 1024, and further bytes never change a verdict. */
  lemma HeadersAgree(bytes: seq<byte>, more: seq<byte>)
    ensures ReadHead(bytes).Complete? <==>
              ParseFrameHeader(bytes).Some? && ParseFrameHeader(bytes).value.payloadLen <= MAX_MSG_LEN
    ensures ReadHead(bytes).Complete? ==> ReadHead(bytes).header == ParseFrameHeader(bytes).value
    ensures !ReadHead(bytes).NeedMore? ==> ReadHead(bytes + more) == ReadHead(bytes)
    ensures ReadHead(bytes).NeedMore? ==> |bytes| < 8
  {
    HeadCases(bytes);
    HeadCases(bytes + more);
    if |bytes| >= 8 && bytes[1] >= 128 {
      assert bytes[2..6] == (bytes + more)[2..6] && bytes[4..8] == (bytes + more)[4..8];
    }
    if ParseFrameHeader(bytes).Some? {
      HeaderDependsOnPrefix(bytes, more);
    }
  }

  /** Repeated `read_frame` until it fails: the texts delivered, the writes made, the final error. */
  datatype Received = Received(texts: seq<seq<byte>>, replies: seq<seq<byte>>, error: TransportError)

  function Before(texts: seq<seq<byte>>, replies: seq<seq<byte>>, r: Received): Received {
    Received(texts + r.texts, replies + r.replies, r.error)
  }

  function Receive(bytes: seq<byte>, end: TransportError): Received
    decreases |bytes|
  {
    var i := ReadFrameOf(bytes, end);
    if i.result.Err? then Received([], i.replies, i.result.error)
    else Before([i.result.value], i.replies, Receive(i.rest, end))
  }

  /** Reading frames from a socket until it fails, however its bytes are split over the reads. */
  method ReceiveAll(socket: Socket) returns (texts: seq<seq<byte>>, error: TransportError)
    requires !socket.aborted
    modifies socket
    ensures var r := Receive(old(socket.Pending()), old(socket.End()));
            texts == r.texts && error == r.error && socket.written == old(socket.written) + r.replies
  {
    hide ReadFrameOf, Receive, Before, Socket.Pending, Socket.End;
    ghost var goal := Receive(socket.Pending(), socket.End());
    var buf := new byte[MAX_MSG_LEN](_ => 0);
    texts := [];
    ghost var replies := [];
    BeforeTwice([], [], [], [], goal);
    while true
      invariant socket.End() == old(socket.End()) && !socket.aborted
      invariant socket.written == old(socket.written) + replies
      invariant goal == Before(texts, replies, Receive(socket.Pending(), socket.End()))
      decreases |socket.Pending()|
    {
      ghost var i := ReadFrameOf(socket.Pending(), socket.End());
      ReceiveNext(texts, replies, socket.Pending(), socket.End());
      var r := ReadFrame(socket, buf);
      replies := replies + i.replies;
      if r.Err? {
        return texts, r.error;
      }
      texts := texts + [buf[..r.value]];
    }
  }

  lemma ReceiveNext(texts: seq<seq<byte>>, replies: seq<seq<byte>>, bytes: seq<byte>, end: TransportError)
    ensures (var i := ReadFrameOf(bytes, end);
             Before(texts, replies, Receive(bytes, end)) ==
             if i.result.Err? then Received(texts, replies + i.replies, i.result.error)
             else Before(texts + [i.result.value], replies + i.replies, Receive(i.rest, end)))
  {
    hide ReadFrameOf, Receive;
    var i := ReadFrameOf(bytes, end);
    ReceiveStep(bytes, end);
    if i.result.Ok? {
      BeforeTwice(texts, replies, [i.result.value], i.replies, Receive(i.rest, end));
    } else {
      assert texts + [] == texts;
    }
  }

  lemma ReceiveStep(bytes: seq<byte>, end: TransportError)
    ensures (var i := ReadFrameOf(bytes, end);
             Receive(bytes, end) ==
             if i.result.Err? then Received([], i.replies, i.result.error)
             else Before([i.result.value], i.replies, Receive(i.rest, end)))
  {
    hide ReadFrameOf;
  }

  lemma BeforeTwice(a: seq<seq<byte>>, b: seq<seq<byte>>, c: seq<seq<byte>>, d: seq<seq<byte>>, r: Received)
    ensures Before(a, b, Before(c, d, r)) == Before(a + c, b + d, r)
    ensures Before([], [], r) == r
  {
    assert a + (c + r.texts) == a + c + r.texts && b + (d + r.replies) == b + d + r.replies;
  }

  function StreamOf(frames: seq<Frame>): seq<byte>
    requires forall k | 0 <= k < |frames| :: WellFormed(frames[k])
  {
    if |frames| == 0 then [] else FrameBytes(frames[0]) + StreamOf(frames[1..])
  }

  function Texts(frames: seq<Frame>): seq<seq<byte>> {
    if |frames| == 0 then []
    else (if frames[0].opcode == OPCODE_TEXT then [frames[0].payload] else []) + Texts(frames[1..])
  }

  /** One pong with the same payload per ping of at most 125 bytes. */
  function Pongs(frames: seq<Frame>): seq<seq<byte>> {
    if |frames| == 0 then []
    else (if frames[0].opcode == OPCODE_PING then PongReplies(frames[0].payload) else []) + Pongs(frames[1..])
  }

  /** A frame at the head of the stream is read whole, unmasked, whatever follows. */
  lemma ReadOneFrame(f: Frame, rest: seq<byte>, end: TransportError)
    requires WellFormed(f) && |f.payload| <= MAX_MSG_LEN
    ensures ReadFrameOf(FrameBytes(f) + rest, end) == AfterFrame(f.opcode, f.payload, rest, end)
  {
    hide ReadFrameOf, AfterFrame, Masked, LengthField, ParseFrameHeader, ReadHead;
    var n, bytes := |HeaderBytes(f)|, FrameBytes(f) + rest;
    var body := bytes[n..];
    var wire := if f.mask.Some? then Masked(f.payload, f.mask.value) else f.payload;
    assert bytes == HeaderBytes(f) + (wire + rest);
    ParseOfHeader(f, wire + rest);
    HeadersAgree(bytes, []);
    FrameStep(bytes, end);
    assert body == wire + rest && body[..|f.payload|] == wire && body[|f.payload|..] == rest;
    if f.mask.Some? {
      MaskTwice(f.payload, f.mask.value);
    }
  }

  /** Main theorem: any list of frames without a close, followed by anything, delivers exactly the text
      payloads in order and answers exactly the pings, then goes on with what follows. */
  lemma {:induction false} FramesReceived(frames: seq<Frame>, rest: seq<byte>, end: TransportError)
    requires forall k | 0 <= k < |frames| :: WellFormed(frames[k]) && |frames[k].payload| <= MAX_MSG_LEN
    requires forall k | 0 <= k < |frames| :: frames[k].opcode != OPCODE_CLOSE
    ensures Receive(StreamOf(frames) + rest, end) == Before(Texts(frames), Pongs(frames), Receive(rest, end))
    decreases |frames|
  {
    hide ReadFrameOf, Receive, FrameBytes, StreamOf, Texts, Pongs, AfterFrame, WellFormed, Before;
    if |frames| == 0 {
      NoFrames();
      assert [] + rest == rest;
      BeforeTwice([], [], [], [], Receive(rest, end));
    } else {
      var f, tail := frames[0], StreamOf(frames[1..]) + rest;
      FirstOfFrames(frames);
      assert StreamOf(frames) + rest == FrameBytes(f) + tail;
      FramesReceived(frames[1..], rest, end);
      ReadOneFrame(f, tail, end);
      ReceiveAfter(f, FrameBytes(f) + tail, tail, end);
      BeforeTwice(Texts([f]), Pongs([f]), Texts(frames[1..]), Pongs(frames[1..]), Receive(rest, end));
    }
  }

  lemma NoFrames()
    ensures StreamOf([]) == [] && Texts([]) == [] && Pongs([]) == []
  {
  }

  lemma FirstOfFrames(frames: seq<Frame>)
    requires |frames| > 0 && forall k | 0 <= k < |frames| :: WellFormed(frames[k])
    ensures StreamOf(frames) == FrameBytes(frames[0]) + StreamOf(frames[1..])
    ensures Texts(frames) == Texts([frames[0]]) + Texts(frames[1..])
    ensures Pongs(frames) == Pongs([frames[0]]) + Pongs(frames[1..])
  {
    hide FrameBytes, PongReplies, WellFormed, Texts, Pongs;
    FirstTexts(frames);
    FirstPongs(frames);
  }

  lemma FirstTexts(frames: seq<Frame>)
    requires |frames| > 0
    ensures Texts(frames) == Texts([frames[0]]) + Texts(frames[1..])
  {
    var one, head := [frames[0]], if frames[0].opcode == OPCODE_TEXT then [frames[0].payload] else [];
    assert one[1..] == [] && Texts(one[1..]) == [];
    assert head + [] == head;
  }

  lemma FirstPongs(frames: seq<Frame>)
    requires |frames| > 0
    ensures Pongs(frames) == Pongs([frames[0]]) + Pongs(frames[1..])
  {
    hide PongReplies;
    var one, head := [frames[0]], if frames[0].opcode == OPCODE_PING then PongReplies(frames[0].payload) else [];
    assert one[1..] == [] && Pongs(one[1..]) == [];
    assert head + [] == head;
  }

  lemma ReceiveAfter(f: Frame, bytes: seq<byte>, tail: seq<byte>, end: TransportError)
    requires f.opcode != OPCODE_CLOSE && ReadFrameOf(bytes, end) == AfterFrame(f.opcode, f.payload, tail, end)
    ensures Receive(bytes, end) == Before(Texts([f]), Pongs([f]), Receive(tail, end))
  {
    hide ReadFrameOf, Receive, PongReplies;
    assert [f][1..] == [] && Texts([f]) == (if f.opcode == OPCODE_TEXT then [f.payload] else []);
    assert Pongs([f]) == (if f.opcode == OPCODE_PING then PongReplies(f.payload) else []);
    ReceiveStep(bytes, end);
    ReceiveStep(tail, end);
    if f.opcode != OPCODE_TEXT {
      var i := ReadFrameOf(tail, end);
      if i.result.Ok? {
        BeforeTwice([], Pongs([f]), [i.result.value], i.replies, Receive(i.rest, end));
      }
    }
  }

  /** At the first close the transport answers it and reports a disconnect; nothing after it matters. */
  lemma CloseEndsStream(frames: seq<Frame>, close: Frame, rest: seq<byte>, end: TransportError)
    requires forall k | 0 <= k < |frames| :: WellFormed(frames[k]) && |frames[k].payload| <= MAX_MSG_LEN
    requires forall k | 0 <= k < |frames| :: frames[k].opcode != OPCODE_CLOSE
    requires WellFormed(close) && |close.payload| <= MAX_MSG_LEN && close.opcode == OPCODE_CLOSE
    ensures Receive(StreamOf(frames) + FrameBytes(close) + rest, end)
         == Received(Texts(frames), Pongs(frames) + [[0x88, 0]], Disconnected)
  {
    hide ReadFrameOf, Receive, FrameBytes;
    FramesReceived(frames, FrameBytes(close) + rest, end);
    assert StreamOf(frames) + FrameBytes(close) + rest == StreamOf(frames) + (FrameBytes(close) + rest);
    ReadOneFrame(close, rest, end);
    ReceiveStep(FrameBytes(close) + rest, end);
  }

  /** The first frame of more than 1024 bytes ends the stream with a protocol error, nothing of it delivered. */
  lemma OversizedEndsStream(frames: seq<Frame>, big: Frame, rest: seq<byte>, end: TransportError)
    requires forall k | 0 <= k < |frames| :: WellFormed(frames[k]) && |frames[k].payload| <= MAX_MSG_LEN
    requires forall k | 0 <= k < |frames| :: frames[k].opcode != OPCODE_CLOSE
    requires WellFormed(big) && |big.payload| > MAX_MSG_LEN
    ensures Receive(StreamOf(frames) + FrameBytes(big) + rest, end)
         == Received(Texts(frames), Pongs(frames), ProtocolError(MsgTooLarge))
  {
    hide ReadFrameOf, Receive, Masked, ReadHead;
    var tail := FrameBytes(big) + rest;
    FramesReceived(frames, tail, end);
    assert StreamOf(frames) + FrameBytes(big) + rest == StreamOf(frames) + tail;
    assert tail[1] % 128 == 126 && (tail[2] as int) * 256 + tail[3] == |big.payload|;
    HeadCases(tail);
    FrameStep(tail, end);
    ReceiveStep(tail, end);
    assert Texts(frames) + [] == Texts(frames) && Pongs(frames) + [] == Pongs(frames);
  }

  /** A frame that is cut off is not read. */
  lemma CutFrame(f: Frame, cut: nat, end: TransportError)
    requires WellFormed(f) && |f.payload| <= MAX_MSG_LEN && cut < |FrameBytes(f)|
    ensures ReadFrameOf(FrameBytes(f)[..cut], end) == Incoming(Err(end), [], [])
  {
    hide ReadFrameOf, Masked, ReadHead, HeaderBytes, ParseFrameHeader, AfterFrame, Unmasked;
    var tail, n := FrameBytes(f)[..cut], |HeaderBytes(f)|;
    var wire := if f.mask.Some? then Masked(f.payload, f.mask.value) else f.payload;
    FrameStep(tail, end);
    if cut < n {
      assert tail + FrameBytes(f)[cut..] == HeaderBytes(f) + wire;
      ParseOfHeader(f, wire);
      HeadersAgree(HeaderBytes(f) + wire, []);
      HeadersAgree(tail, FrameBytes(f)[cut..]);
    } else {
      assert tail == HeaderBytes(f) + wire[..cut - n];
      ParseOfHeader(f, wire[..cut - n]);
      HeadersAgree(tail, []);
    }
  }

  /** A stream that stops inside a frame delivers the frames before it and reports how the stream ended. */
  lemma CutOffEndsStream(frames: seq<Frame>, last: Frame, cut: nat, end: TransportError)
    requires forall k | 0 <= k < |frames| :: WellFormed(frames[k]) && |frames[k].payload| <= MAX_MSG_LEN
    requires forall k | 0 <= k < |frames| :: frames[k].opcode != OPCODE_CLOSE
    requires WellFormed(last) && |last.payload| <= MAX_MSG_LEN && cut < |FrameBytes(last)|
    ensures Receive(StreamOf(frames) + FrameBytes(last)[..cut], end) == Received(Texts(frames), Pongs(frames), end)
  {
    hide ReadFrameOf, Receive, FrameBytes, Texts, Pongs;
    var tail := FrameBytes(last)[..cut];
    FramesReceived(frames, tail, end);
    CutFrame(last, cut, end);
    ReceiveStep(tail, end);
    assert Texts(frames) + [] == Texts(frames) && Pongs(frames) + [] == Pongs(frames);
  }

  /** Nothing more is delivered from here: the header or payload is incomplete, the length is too large, or the
      frame is a close. */
  predicate StopsReading(bytes: seq<byte>) {
    var head := ReadHead(bytes);
    head.Complete? ==>
      |bytes| < head.header.headerLen + head.header.payloadLen || head.header.opcode == OPCODE_CLOSE
  }

  /** The frame at the head of a stream. */
  function FirstFrame(bytes: seq<byte>): Frame
    requires ReadHead(bytes).Complete?
    requires ReadHead(bytes).header.headerLen + ReadHead(bytes).header.payloadLen <= |bytes|
  {
    var h := ReadHead(bytes).header;
    Frame(bytes[0] / 16, h.opcode, if h.masked then Some(h.maskKey) else None, bytes[1] % 128 == 126,
          Unmasked(h, bytes[h.headerLen..h.headerLen + h.payloadLen]))
  }

  lemma ByteParts(b: byte, hi: byte, lo: byte)
    ensures b / 16 < 16 && b % 16 < 16 && b / 16 * 16 + b % 16 == b
    ensures b == b % 128 + if b >= 128 then 128 else 0
    ensures ((hi as int) * 256 + lo) / 256 == hi && ((hi as int) * 256 + lo) % 256 == lo
  {
  }

  lemma FirstHeader(bytes: seq<byte>)
    requires !StopsReading(bytes)
    ensures var f, h := FirstFrame(bytes), ReadHead(bytes).header;
            && WellFormed(f) && |f.payload| == h.payloadLen && f.opcode != OPCODE_CLOSE
            && HeaderBytes(f) == bytes[..h.headerLen]
  {
    hide ReadHead, Masked, ParseFrameHeader, Unmasked;
    HeadCases(bytes);
    var f, h := FirstFrame(bytes), ReadHead(bytes).header;
    var ext := if bytes[1] % 128 == 126 then 4 else 2;
    ByteParts(bytes[0], 0, 0);
    ByteParts(bytes[1], if ext == 4 then bytes[2] else 0, if ext == 4 then bytes[3] else 0);
    assert WellFormed(f);
    assert h.masked ==> bytes[ext..ext + 4] == h.maskKey && h.headerLen == ext + 4;
    assert !h.masked ==> h.headerLen == ext;
    var second := LengthField(|f.payload|, f.extended, h.masked);
    if ext == 4 {
      assert h.payloadLen == (bytes[2] as int) * 256 + bytes[3];
      assert second == [bytes[1], bytes[2], bytes[3]] == bytes[1..ext];
    } else {
      assert h.payloadLen == bytes[1] % 128;
      assert second == [bytes[1]] == bytes[1..ext];
    }
    assert [bytes[0]] + second == bytes[..ext];
    assert h.masked ==> bytes[..ext] + bytes[ext..ext + 4] == bytes[..ext + 4];
  }

  lemma FirstFrameIsRead(bytes: seq<byte>)
    requires !StopsReading(bytes)
    ensures var f, h := FirstFrame(bytes), ReadHead(bytes).header;
            && WellFormed(f) && |f.payload| <= MAX_MSG_LEN && f.opcode != OPCODE_CLOSE
            && bytes == FrameBytes(f) + bytes[h.headerLen + h.payloadLen..]
  {
    hide ReadHead, Masked, ParseFrameHeader, HeaderBytes, WellFormed;
    FirstHeader(bytes);
    var h := ReadHead(bytes).header;
    var total := h.headerLen + h.payloadLen;
    if h.masked {
      MaskTwice(bytes[h.headerLen..total], h.maskKey);
    }
    assert bytes == bytes[..h.headerLen] + bytes[h.headerLen..total] + bytes[total..];
  }

  /** Every byte stream whatsoever is a list of frames without a close, then something that stops the reading:
      with `FramesReceived` this accounts for every run of the transport. */
  lemma {:induction false} EveryStream(bytes: seq<byte>, end: TransportError)
    returns (frames: seq<Frame>, rest: seq<byte>)
    ensures forall k | 0 <= k < |frames| :: WellFormed(frames[k]) && |frames[k].payload| <= MAX_MSG_LEN
    ensures forall k | 0 <= k < |frames| :: frames[k].opcode != OPCODE_CLOSE
    ensures bytes == StreamOf(frames) + rest && StopsReading(rest)
    ensures var last := ReadFrameOf(rest, end);
            && last.result.Err?
            && Receive(bytes, end) == Received(Texts(frames), Pongs(frames) + last.replies, last.result.error)
  {
    hide ReadFrameOf, Receive, ReadHead, FrameBytes, FirstFrame, Unmasked;
    frames, rest := [], bytes;
    if StopsReading(bytes) {
      FrameStep(bytes, end);
    } else {
      var h := ReadHead(bytes).header;
      FirstFrameIsRead(bytes);
      var later;
      later, rest := EveryStream(bytes[h.headerLen + h.payloadLen..], end);
      frames := [FirstFrame(bytes)] + later;
      assert frames[1..] == later;
    }
    FramesReceived(frames, rest, end);
    ReceiveStep(rest, end);
  }

  /** More bytes never change a frame that is read. */
  lemma {:induction false} MoreBytes(bytes: seq<byte>, more: seq<byte>, end: TransportError, later: TransportError)
    requires ReadFrameOf(bytes, end).result.Ok?
    ensures var i := ReadFrameOf(bytes, end);
            ReadFrameOf(bytes + more, later) == i.(rest := i.rest + more)
    decreases |bytes|
  {
    hide ReadFrameOf, ReadHead, Unmasked, PongReplies, ParseFrameHeader;
    FrameStep(bytes, end);
    FrameStep(bytes + more, later);
    HeadersAgree(bytes, more);
    var h := ReadHead(bytes).header;
    var body := bytes[h.headerLen..];
    var rest := body[h.payloadLen..];
    assert (bytes + more)[h.headerLen..] == body + more;
    assert (body + more)[..h.payloadLen] == body[..h.payloadLen] && (body + more)[h.payloadLen..] == rest + more;
    if h.opcode != OPCODE_TEXT {
      MoreBytes(rest, more, end, later);
    }
  }

  /** Whatever part of a stream arrives, the texts received are the first ones of the whole stream. */
  lemma {:induction false} PrefixReceived(bytes: seq<byte>, more: seq<byte>, end: TransportError,
                                          later: TransportError)
    ensures Receive(bytes, end).texts <= Receive(bytes + more, later).texts
    decreases |bytes|
  {
    hide ReadFrameOf, Receive;
    var i := ReadFrameOf(bytes, end);
    ReceiveStep(bytes, end);
    ReceiveStep(bytes + more, later);
    if i.result.Ok? {
      MoreBytes(bytes, more, end, later);
      PrefixReceived(i.rest, more, end, later);
    }
  }

  // ---- octet by octet ----------------------------------------------------------------------------

  /** The length of a frame, from its octets. */
  function WireLength(bytes: seq<byte>): (n: nat)
    requires |bytes| >= 2 && (bytes[1] % 128 >= 126 ==> |bytes| >= 4)
  {
    if bytes[1] % 128 < 126 then bytes[1] % 128 else (bytes[2] as int) * 256 + bytes[3]
  }

  /** Where the payload starts, from the octets: two of them, two more for a 16-bit length, four for a mask key. */
  function WireStart(bytes: seq<byte>): (n: nat)
    requires |bytes| >= 2
    ensures 2 <= n <= 8
  {
    (if bytes[1] % 128 == 126 then 4 else 2) + (if bytes[1] >= 128 then 4 else 0)
  }

  /** A whole frame is at the head of the stream, of at most 1024 payload octets. */
  predicate WholeFrame(bytes: seq<byte>) {
    && |bytes| >= 2 && bytes[1] % 128 != 127 && (bytes[1] % 128 == 126 ==> |bytes| >= 4)
    && WireLength(bytes) <= 1024 && WireStart(bytes) + WireLength(bytes) <= |bytes|
  }

  /** `payload` is what the octets of a whole frame carry: the payload octets as they are, or with their bits flipped
      by the four octets before them. */
  predicate Carries(bytes: seq<byte>, payload: seq<byte>)
    requires WholeFrame(bytes)
  {
    var start := WireStart(bytes);
    var wire := bytes[start..start + WireLength(bytes)];
    if bytes[1] >= 128 then FlippedBy(payload, wire, bytes[start - 4..start]) else payload == wire
  }

  /** Main theorem on the wire: what reading does with a whole frame at the head of any stream, in terms of its
      octets only. A text is delivered unmasked, a close is answered and ends the reading, a short ping is answered
      with its payload, and anything else is skipped. */
  lemma FrameOnTheWire(bytes: seq<byte>, end: TransportError) returns (payload: seq<byte>)
    requires WholeFrame(bytes)
    ensures Carries(bytes, payload)
    ensures var i, rest := ReadFrameOf(bytes, end), bytes[WireStart(bytes) + WireLength(bytes)..];
            var later := ReadFrameOf(rest, end);
            i == match bytes[0] % 16
                 case 1 => Incoming(Ok(payload), [], rest)
                 case 8 => Incoming(Err(Disconnected), [[0x88, 0]], rest)
                 case 9 =>
                   var pongs := if |payload| <= 125 then [[0x8A, |payload|] + payload] else [];
                   later.(replies := pongs + later.replies)
                 case _ => later
  {
    hide ReadHead, ReadFrameOf, Masked, FlippedBy;
    var start, len := WireStart(bytes), WireLength(bytes);
    HeadCases(bytes);
    FrameStep(bytes, end);
    var h := ReadHead(bytes).header;
    assert h.headerLen == start && h.payloadLen == len;
    var wire := bytes[start..start + len];
    assert bytes[start..][..len] == wire && bytes[start..][len..] == bytes[start + len..];
    payload := Unmasked(h, wire);
    if h.masked {
      MaskedFlips(wire, h.maskKey);
    }
    PongOnTheWire(payload);
  }

  lemma PongOnTheWire(payload: seq<byte>)
    ensures PongReplies(payload) == if |payload| <= 125 then [[0x8A, |payload|] + payload] else []
  {
    if |payload| <= 125 {
      assert HeaderBytes(PongFrame(payload)) == [0x8A, |payload|];
    }
  }

  /** What is refused on its length octets, read no further, and what is waited for. */
  lemma NoFrameOnTheWire(bytes: seq<byte>, end: TransportError)
    requires !WholeFrame(bytes)
    ensures ReadFrameOf(bytes, end) ==
            if |bytes| >= 2 && bytes[1] % 128 == 127 then Incoming(Err(ProtocolError(MsgTooLarge)), [], bytes[2..])
            else if |bytes| >= 4 && bytes[1] % 128 == 126 && WireLength(bytes) > 1024 then
              Incoming(Err(ProtocolError(MsgTooLarge)), [], bytes[4..])
            else Incoming(Err(end), [], [])
  {
    hide ReadHead, ReadFrameOf;
    HeadCases(bytes);
    FrameStep(bytes, end);
  }

  /** The octets an answer puts on the wire. */
  lemma AnswerOnTheWire(data: seq<byte>)
    requires |data| <= 1024
    ensures Packets(data) == [if |data| <= 125 then [0x81, |data|] else [0x81, 126, |data| / 256, |data| % 256], data]
  {
    var header := if |data| <= 125 then [0x81, |data|] else [0x81, 126, |data| / 256, |data| % 256];
    assert HeaderBytes(TextFrame(data)) == header;
  }

  /** The masked "Hello" of section 5.7 of RFC 6455 is delivered as "Hello". */
  lemma HelloDelivered(end: TransportError)
    ensures ReadFrameOf([0x81, 0x85, 0x37, 0xFA, 0x21, 0x3D, 0x7F, 0x9F, 0x4D, 0x51, 0x58], end)
         == Incoming(Ok([72, 101, 108, 108, 111]), [], [])
  {
    hide ReadHead, ReadFrameOf, Masked;
    var bytes: seq<byte> := [0x81, 0x85, 0x37, 0xFA, 0x21, 0x3D, 0x7F, 0x9F, 0x4D, 0x51, 0x58];
    HeadCases(bytes);
    FrameStep(bytes, end);
    var body := bytes[6..];
    assert bytes[2..6] == [0x37, 0xFA, 0x21, 0x3D] && body == [0x7F, 0x9F, 0x4D, 0x51, 0x58];
    assert body[..5] == body && body[5..] == [];
    HelloUnmasked();
  }

  lemma HelloUnmasked()
    ensures Masked([0x7F, 0x9F, 0x4D, 0x51, 0x58], [0x37, 0xFA, 0x21, 0x3D]) == [72, 101, 108, 108, 111]
  {
    hide Xor;
    HelloBytes();
  }

  lemma HelloBytes()
    ensures Xor(0x7F, 0x37) == 72 && Xor(0x9F, 0xFA) == 101 && Xor(0x4D, 0x21) == 108
    ensures Xor(0x51, 0x3D) == 108 && Xor(0x58, 0x37) == 111
  {
  }
}
