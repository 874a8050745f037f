/** `TcpTransport` of src/net.rs: newline frames read from a socket one byte at a time. */
module TcpTransport {
  import opened Bytes
  import opened Protocol
  import opened Sockets
  import opened Framing

  type ReadResult = Result<seq<byte>, TransportError>

  function ResultOf(r: Report): ReadResult {
    if r.Frame? then Ok(r.bytes) else Err(ProtocolError(MsgTooLarge))
  }

  /** One `read_frame`: result, bytes left, and the segment left open. */
  datatype Step = Step(result: ReadResult, rest: seq<byte>, open: seq<byte>)

  function ReadFrameOf(bytes: seq<byte>, open: seq<byte>, end: TransportError): (s: Step)
    ensures s.result == Err(end) || |s.rest| < |bytes|
    ensures s.result == Err(end) || s.result == Err(ProtocolError(MsgTooLarge)) || s.result.Ok?
  {
    if |bytes| == 0 then Step(Err(end), [], open)
    else if bytes[0] == NEWLINE then Step(ResultOf(ReportOf(open)), bytes[1..], [])
    else ReadFrameOf(bytes[1..], open + [bytes[0]], end)
  }

  method ReadFrame(socket: Socket, reader: FrameReader, buf: array<byte>) returns (r: Result<nat, TransportError>)
    requires reader.Valid() && buf.Length >= MAX_MSG_LEN && buf != reader.buf
    modifies socket, reader, reader.buf, buf
    ensures reader.Valid() && reader.buf == old(reader.buf)
    ensures var s := ReadFrameOf(old(socket.Pending()), old(reader.segment), old(socket.End()));
            && socket.Pending() == s.rest && reader.segment == s.open
            && (r.Ok? ==> s.result.Ok? && r.value < MAX_MSG_LEN && buf[..r.value] == s.result.value)
            && (r.Err? ==> s.result == Err(r.error))
            && (socket.aborted <==> old(socket.aborted) || (r.Err? && !r.error.ProtocolError?))
            && socket.End() == (if r.Err? && !r.error.ProtocolError? && !old(socket.aborted) then Disconnected
                                else old(socket.End()))
    ensures socket.written == old(socket.written) && socket.writeResults == old(socket.writeResults)
  {
    hide Socket.Pending, Socket.End;
    ghost var end := socket.End();
    ghost var goal := ReadFrameOf(socket.Pending(), reader.segment, end);
    var one := new byte[1](_ => 0);
    while true
      invariant reader.Valid() && reader.buf == old(reader.buf)
      invariant socket.End() == end && socket.aborted == old(socket.aborted)
      invariant goal == ReadFrameOf(socket.Pending(), reader.segment, end)
      invariant socket.written == old(socket.written) && socket.writeResults == old(socket.writeResults)
      decreases |socket.Pending()|
    {
      ghost var bytes := socket.Pending();
      var got := socket.Read(one, 0, 1);
      if got.Failed? {
        socket.Abort();
        return Err(got.error);
      }
      assert one[..1][0] == bytes[..1][0];
      var pushed := reader.Push(one[0]);
      if pushed.Done? {
        if pushed.report.TooLarge? {
          reader.Reset();
          return Err(ProtocolError(MsgTooLarge));
        }
        var frame := pushed.report.bytes;
        CopyInto(frame, buf, 0);
        return Ok(|frame|);
      }
    }
  }

  /** `write_frame`: one write; a failed one aborts the connection. */
  method WriteFrame(socket: Socket, data: seq<byte>) returns (r: Result<(), TransportError>)
    modifies socket
    ensures r.Ok? <==> !old(socket.aborted) && WriteOk(old(socket.writeResults), 0)
    ensures old(socket.aborted) ==>
              socket.written == old(socket.written) && socket.writeResults == old(socket.writeResults)
    ensures !old(socket.aborted) ==>
              && socket.written == old(socket.written) + [data]
              && socket.writeResults == Later(old(socket.writeResults), 1)
    ensures r.Err? ==> r.error == Disconnected
    ensures socket.aborted == r.Err?
    ensures Left(socket.Pending(), socket.End(), old(socket.Pending()), old(socket.End()),
                 r.Err? && !old(socket.aborted), socket.surviving)
  {
    var ok := socket.WriteAll(data);
    if !ok {
      socket.Abort();
      return Err(Disconnected);
    }
    r := Ok(());
  }

  function ResultsOf(segments: seq<seq<byte>>): (r: seq<ReadResult>)
    ensures |r| == |segments|
  {
    seq(|segments|, k requires 0 <= k < |segments| => ResultOf(ReportOf(segments[k])))
  }

  /** One read delivers the first newline segment of what is left, or the end when there is none. */
  lemma {:induction false} ReadIsSplit(bytes: seq<byte>, open: seq<byte>, end: TransportError)
    requires !end.ProtocolError?
    ensures (var s, segments := ReadFrameOf(bytes, open, end), Split(bytes, open).0;
             && (s.result == Err(end) <==> segments == [])
             && (s.result == Err(end) ==> s.rest == [])
             && (segments != [] ==> s.result == ResultOf(ReportOf(segments[0])) && s.open == []
                                    && segments == [segments[0]] + Split(s.rest, []).0))
    decreases |bytes|
  {
    hide ReportOf;
    SplitStep(bytes, open);
    if |bytes| > 0 && bytes[0] != NEWLINE {
      ReadIsSplit(bytes[1..], open + [bytes[0]], end);
    }
  }

  /** The results of repeated `read_frame` calls up to the end of the connection. */
  function Results(bytes: seq<byte>, open: seq<byte>, end: TransportError): seq<ReadResult>
    decreases |bytes|
  {
    var s := ReadFrameOf(bytes, open, end);
    if s.result == Err(end) then [s.result] else [s.result] + Results(s.rest, s.open, end)
  }

  /** A TCP connection delivers exactly the newline segments of its byte stream, oversized ones as protocol
      errors, and then its end; bytes after the last newline are never delivered. */
  lemma {:induction false} ResultsAreSegments(bytes: seq<byte>, open: seq<byte>, end: TransportError)
    requires !end.ProtocolError?
    ensures Results(bytes, open, end) == ResultsOf(Split(bytes, open).0) + [Err(end)]
    decreases |bytes|
  {
    hide ReadFrameOf, ReportOf, Split;
    var s, segments := ReadFrameOf(bytes, open, end), Split(bytes, open).0;
    ReadIsSplit(bytes, open, end);
    if segments != [] {
      ResultsAreSegments(s.rest, [], end);
      assert ResultsOf(segments) == [s.result] + ResultsOf(segments[1..]);
    }
  }
}
