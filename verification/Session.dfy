/** `handle_client` of src/net.rs: the command loop of one connection, over both transports. The JSON library is a
    pair of functions: `parse` turns a frame into a command or nothing, `render` turns a response into bytes. */
module Session {
  import opened Bytes
  import opened Protocol
  import opened Interfaces
  import opened Router
  import opened RouterHistory
  import opened Sockets
  import Framing
  import TcpTransport
  import WsFrame
  import WsTransport

  type ReadResult = TcpTransport.ReadResult
  type WriteResult = Result<(), TransportError>
  type Parser = seq<byte> -> Option<Command>
  type Printer = Response -> seq<byte>

  /** `parse_command`: length, JSON, version. */
  function ParseCommand(parse: Parser, frame: seq<byte>): Result<Command, ErrorCode> {
    if |frame| > MAX_MSG_LEN then Err(MsgTooLarge)
    else
      match parse(frame)
      case None => Err(MalformedJson)
      case Some(cmd) =>
        var bad := CheckVersion(cmd);
        if bad.Some? then Err(bad.value) else Ok(cmd)
  }

  // ---- the two transports ------------------------------------------------------------------------

  datatype Kind = TcpKind | WsKind

  /** What is left to read: the bytes, the TCP segment already begun, and how they end. */
  datatype Feed = Feed(bytes: seq<byte>, segment: seq<byte>, end: TransportError)

  /** One `read_frame`: its result, what it writes by itself if it can, and what is left. */
  datatype Event = Event(result: ReadResult, replies: seq<seq<byte>>, rest: Feed)

  function ReadOn(kind: Kind, f: Feed): (e: Event)
    ensures e.result == Err(f.end) || |e.rest.bytes| < |f.bytes|
  {
    match kind
    case TcpKind =>
      var s := TcpTransport.ReadFrameOf(f.bytes, f.segment, f.end);
      Event(s.result, [], Feed(s.rest, s.open, f.end))
    case WsKind =>
      var i := WsTransport.ReadFrameOf(f.bytes, f.end);
      Event(i.result, i.replies, Feed(i.rest, [], f.end))
  }

  /** What an abort leaves to read. */
  function Cut(f: Feed, surviving: nat): (c: Feed)
    ensures |c.bytes| <= |f.bytes|
  {
    Feed(Survivors(f.bytes, surviving), f.segment, Disconnected)
  }

  predicate Ends(r: ReadResult) {
    r.Err? && !r.error.ProtocolError?
  }

  /** Reading aborts the connection at its end, a WebSocket on every error. */
  predicate Aborts(kind: Kind, r: ReadResult) {
    if kind.TcpKind? then Ends(r) else r.Err?
  }

  /** The writes an answer takes. */
  function Packets(kind: Kind, data: seq<byte>): seq<seq<byte>>
    requires |data| <= MAX_MSG_LEN
  {
    if kind.TcpKind? then [data] else WsTransport.Packets(data)
  }

  /** The implementations of the `Transport` trait that `handle_client` runs over. */
  datatype Transport = Tcp(socket: Socket, reader: Framing.FrameReader) | Ws(socket: Socket) {
    ghost predicate Valid()
      reads if Tcp? then {reader, reader.buf} else {}
    {
      Tcp? ==> reader.Valid()
    }

    ghost function Unread(): Feed
      reads socket`script, if Tcp? then {reader} else {}
    {
      Feed(socket.Pending(), if Tcp? then reader.segment else [], socket.End())
    }

    function Kind(): Kind {
      if Tcp? then TcpKind else WsKind
    }

    method ReadFrame(buf: array<byte>) returns (r: Result<nat, TransportError>)
      requires Valid() && buf.Length == MAX_MSG_LEN && (Tcp? ==> buf != reader.buf)
      modifies socket, buf, if Tcp? then {reader, reader.buf} else {}
      ensures Valid() && (Tcp? ==> reader.buf == old(reader.buf))
      ensures var e := ReadOn(Kind(), old(Unread()));
              && var replies := WsTransport.Heard(e.replies, old(socket.aborted));
              && (r.Ok? <==> e.result.Ok?)
              && (r.Ok? ==> r.value <= MAX_MSG_LEN && buf[..r.value] == e.result.value)
              && (r.Err? ==> r.error == e.result.error)
              && socket.written == old(socket.written) + replies
              && socket.writeResults == Later(old(socket.writeResults), |replies|)
              && (socket.aborted <==> old(socket.aborted) || Aborts(Kind(), e.result))
              && Unread() == if socket.aborted && !old(socket.aborted) then Cut(e.rest, socket.surviving) else e.rest
    {
      hide TcpTransport.ReadFrameOf, WsTransport.ReadFrameOf, Framing.Split, Socket.Pending, Socket.End, Later;
      LaterWrites(socket.writeResults, 0, 0);
      if Tcp? {
        TcpTransport.ReadIsSplit(socket.Pending(), reader.segment, socket.End());
        r := TcpTransport.ReadFrame(socket, reader, buf);
      } else {
        r := WsTransport.ReadFrame(socket, buf);
      }
    }

    method WriteFrame(data: seq<byte>) returns (r: WriteResult)
      requires Valid() && |data| <= MAX_MSG_LEN
      modifies socket
      ensures Valid() && socket.aborted == r.Err?
      ensures old(socket.aborted) ==> r.Err? && socket.written == old(socket.written)
      ensures old(socket.aborted) ==> socket.writeResults == old(socket.writeResults)
      ensures !old(socket.aborted) ==>
                (var sent := Attempted(Packets(Kind(), data), old(socket.writeResults));
                 && (r.Ok? <==> AllSent(Packets(Kind(), data), old(socket.writeResults)))
                 && socket.written == old(socket.written) + sent
                 && socket.writeResults == Later(old(socket.writeResults), |sent|))
      ensures Unread() == if r.Err? && !old(socket.aborted) then Cut(old(Unread()), socket.surviving) else old(Unread())
    {
      hide Later, WriteOk, WsTransport.Packets, Socket.Pending, Socket.End;
      if Tcp? {
        assert Attempted([data], socket.writeResults) == [data];
        r := TcpTransport.WriteFrame(socket, data);
      } else {
        r := WsTransport.WriteFrame(socket, data);
      }
    }
  }

  // ---- the meaning of a session ------------------------------------------------------------------

  /** Why a session is over. */
  datatype End = Hangup(error: TransportError) | WriteFailed | Rebooted | Panicked

  /** One read result on a state: a protocol error or a frame that does not parse is answered without touching
      the state; a command is validated and dispatched. */
  function EventOn(parse: Parser, r: ReadResult, s: DeviceValue): Effect
    requires !Ends(r)
  {
    match r
    case Err(ProtocolError(code)) => Effect(s, Answer(ErrorResponse("", code)))
    case Ok(frame) =>
      (match ParseCommand(parse, frame)
       case Err(code) => Effect(s, Answer(ErrorResponse("", code)))
       case Ok(cmd) => StepOf(cmd, s))
  }

  /** A response as a frame: its text and a newline, or no frame when that does not fit the buffer. */
  function FrameOf(render: Printer, r: Response): (frame: seq<seq<byte>>)
    ensures |frame| <= 1 && (frame != [] ==> 0 < |frame[0]| <= MAX_MSG_LEN)
  {
    if |render(r)| < MAX_MSG_LEN then [render(r) + [Framing.NEWLINE]] else []
  }

  /** The frame of an outcome; a panic has none. */
  function FrameFor(render: Printer, o: Outcome): (frame: seq<seq<byte>>)
    ensures |frame| <= 1 && (frame != [] ==> 0 < |frame[0]| <= MAX_MSG_LEN)
  {
    if o.Panic? then [] else FrameOf(render, o.response)
  }

  /** The frame that answers a read result. */
  function AnswerTo(parse: Parser, render: Printer, r: ReadResult, s: DeviceValue): (frame: seq<seq<byte>>)
    ensures |frame| <= 1 && (frame != [] ==> 0 < |frame[0]| <= MAX_MSG_LEN)
  {
    if Ends(r) then [] else FrameFor(render, EventOn(parse, r, s).outcome)
  }

  /** Sending an answer, if there is one: whether the loop may go on, and what has been written, of a failing answer
      what comes before the failing write and that write. */
  datatype Sending = Sending(ok: bool, wrote: seq<seq<byte>>)

  function SendingOf(kind: Kind, frame: seq<seq<byte>>, open: bool, results: seq<bool>): Sending
    requires |frame| <= 1 && (frame != [] ==> |frame[0]| <= MAX_MSG_LEN)
  {
    if frame == [] then Sending(true, [])
    else if !open then Sending(false, [])
    else
      var packets := Packets(kind, frame[0]);
      Sending(AllSent(packets, results), Attempted(packets, results))
  }

  /** A session between two reads: what is left to read, whether the connection is open, the device state, and
      everything written so far. */
  datatype Position = Position(feed: Feed, open: bool, state: DeviceValue, writes: seq<seq<byte>>)

  /** A session: its transport and code, what there is to read, the state it starts in, the results of its writes,
      and how much an abort leaves readable. */
  datatype Conversation = Conversation(kind: Kind, parse: Parser, render: Printer, feed: Feed, start: DeviceValue,
                                       results: seq<bool>, surviving: nat)
  {
    function EventAt(p: Position): Event {
      ReadOn(kind, p.feed)
    }

    function Replies(p: Position): seq<seq<byte>> {
      WsTransport.Heard(EventAt(p).replies, !p.open)
    }

    /** The frame that answers a read. */
    function AnswerAt(p: Position): (frame: seq<seq<byte>>)
      ensures |frame| <= 1 && (frame != [] ==> 0 < |frame[0]| <= MAX_MSG_LEN)
    {
      AnswerTo(parse, render, EventAt(p).result, p.state)
    }

    /** Whether the connection is open when the answer is written. */
    predicate OpenAt(p: Position) {
      p.open && !Aborts(kind, EventAt(p).result)
    }

    /** The results of the writes from the answer on. */
    function ResultsAt(p: Position): seq<bool> {
      Later(results, |p.writes| + |Replies(p)|)
    }

    function SendingAt(p: Position): Sending {
      SendingOf(kind, AnswerAt(p), OpenAt(p), ResultsAt(p))
    }

    /** One turn of the loop. A failed read or write aborts the connection. */
    function Next(p: Position): Position {
      var e := EventAt(p);
      var open := OpenAt(p) && SendingAt(p).ok;
      Position(if p.open && !open then Cut(e.rest, surviving) else e.rest,
               open,
               if Ends(e.result) then p.state else EventOn(parse, e.result, p.state).state,
               p.writes + Replies(p) + SendingAt(p).wrote)
    }

    /** The session after `k` reads. */
    function At(k: nat): Position {
      if k == 0 then Position(feed, true, start, []) else Next(At(k - 1))
    }

    /** Whether the loop goes on: after a protocol error always, after a frame unless its command panics, its
        answer cannot be sent, or a reboot is pending. */
    predicate GoesOn(p: Position) {
      var r := EventAt(p).result;
      if r.Err? then r.error.ProtocolError?
      else
        var effect := EventOn(parse, r, p.state);
        effect.outcome.Answer? && SendingAt(p).ok && !effect.state.pendingReboot
    }

    /** Why the loop ends there. */
    function EndOf(p: Position): End
      requires !GoesOn(p)
    {
      var r := EventAt(p).result;
      if r.Err? then Hangup(r.error)
      else if EventOn(parse, r, p.state).outcome.Panic? then Panicked
      else if SendingAt(p).ok then Rebooted
      else WriteFailed
    }

    /** The loop gets to its `n`-th read. */
    predicate Reaches(n: nat) {
      forall j | 0 <= j < n :: GoesOn(At(j))
    }

    /** The session takes `n` reads and stands like this at its end. */
    predicate Ended(n: nat, state: DeviceValue, writes: seq<seq<byte>>, end: End) {
      && 0 < n && Reaches(n - 1) && !GoesOn(At(n - 1))
      && state == At(n).state && writes == At(n).writes && end == EndOf(At(n - 1))
    }

    /** The answer that is given to the connection: none on an aborted one. */
    function Given(p: Position): (frame: seq<seq<byte>>)
      ensures |frame| <= 1 && (frame != [] ==> 0 < |frame[0]| <= MAX_MSG_LEN)
    {
      if OpenAt(p) then AnswerAt(p) else []
    }

    /** The answers given to the connection over the first `k` reads. */
    function Answers(k: nat): seq<seq<byte>> {
      if k == 0 then [] else Answers(k - 1) + Given(At(k - 1))
    }

    /** The texts of those answers, without their newlines. */
    function Bodies(k: nat): seq<seq<byte>> {
      if k == 0 then []
      else
        var frame := Given(At(k - 1));
        Bodies(k - 1) + if frame == [] then [] else [frame[0][..|frame[0]| - 1]]
    }

    /** How many of the first `k` reads leave the connection open: those before an abort. */
    function OpenReads(k: nat): (n: nat)
      ensures n <= k
    {
      if k == 0 then 0 else OpenReads(k - 1) + if OpenAt(At(k - 1)) then 1 else 0
    }

    /** The results of the first `k` reads. */
    function Reads(k: nat): (r: seq<ReadResult>)
      ensures |r| == k
    {
      if k == 0 then [] else Reads(k - 1) + [EventAt(At(k - 1)).result]
    }

    /** What one turn does, in terms of the outcome to answer. */
    lemma Turn(p: Position)
      ensures (var e, after := EventAt(p), Next(p);
               && after.feed == (if p.open && !after.open then Cut(e.rest, surviving) else e.rest)
               && (Ends(e.result) ==>
                     after == Position(after.feed, false, p.state, p.writes + Replies(p) + [])
                     && !GoesOn(p) && EndOf(p) == Hangup(e.result.error))
               && (!Ends(e.result) ==>
                     var effect := EventOn(parse, e.result, p.state);
                     var sending := SendingOf(kind, FrameFor(render, effect.outcome), OpenAt(p), ResultsAt(p));
                     && after.state == effect.state
                     && after.open == (OpenAt(p) && sending.ok)
                     && after.writes == p.writes + Replies(p) + sending.wrote
                     && (GoesOn(p) <==>
                           e.result.Err? || (effect.outcome.Answer? && sending.ok && !effect.state.pendingReboot))
                     && (!GoesOn(p) ==>
                           EndOf(p) == if effect.outcome.Panic? then Panicked else if sending.ok then Rebooted
                                       else WriteFailed)))
    {
      hide EventOn, FrameFor, AllSent, Attempted, Later, WriteOk, ReadOn, Packets, Cut;
    }

    /** The session after one more read. */
    lemma OneMore(k: nat)
      ensures At(0) == Position(feed, true, start, []) && Reads(0) == []
      ensures At(k + 1) == Next(At(k)) && Reads(k + 1) == Reads(k) + [EventAt(At(k)).result]
    {
      hide Next, EventAt;
    }

    /** What has been answered after one more read. */
    lemma OneMoreAnswered(k: nat)
      ensures Answers(0) == [] && Bodies(0) == [] && OpenReads(0) == 0
      ensures OpenReads(k + 1) == OpenReads(k) + if OpenAt(At(k)) then 1 else 0
      ensures Answers(k + 1) == Answers(k) + Given(At(k))
      ensures Bodies(k + 1) == Bodies(k) + if Given(At(k)) == [] then [] else [Given(At(k))[0][..|Given(At(k))[0]| - 1]]
    {
      hide Given, OpenAt, At;
    }

    lemma Reached(n: nat)
      ensures Reaches(0) && (Reaches(n + 1) <==> Reaches(n) && GoesOn(At(n))) && At(n + 1) == Next(At(n))
    {
      hide GoesOn, Next;
    }

    lemma ResultsLeft(p: Position, n: nat)
      ensures Later(Later(results, |p.writes|), |Replies(p)|) == ResultsAt(p)
      ensures Later(ResultsAt(p), n) == Later(results, |p.writes| + |Replies(p)| + n)
      ensures ResultsAt(p) == Later(results, |p.writes| + |Replies(p)|)
    {
      hide Later, WriteOk;
      LaterWrites(results, |p.writes|, |Replies(p)|);
      LaterWrites(results, |p.writes| + |Replies(p)|, n);
    }
  }

  lemma ProtocolErrorOn(parse: Parser, r: ReadResult, s: DeviceValue)
    requires r.Err? && r.error.ProtocolError?
    ensures EventOn(parse, r, s) == Effect(s, Answer(ErrorResponse("", r.error.code)))
  {
  }

  /** Parsing, validating and dispatching one frame. */
  method AnswerFrame(parse: Parser, state: DeviceState, frame: seq<byte>) returns (o: Outcome)
    requires state.Valid()
    modifies state
    ensures state.Valid() && Effect(state.Value(), o) == EventOn(parse, Ok(frame), old(state.Value()))
    ensures o.Panic? ==> state.Value() == old(state.Value())
  {
    hide StepOf, ParseCommand;
    var parsed := ParseCommand(parse, frame);
    if parsed.Err? {
      return Answer(ErrorResponse("", parsed.error));
    }
    o := state.Step(parsed.value);
    if o.Panic? {
      RefusedLeavesState(parsed.value, old(state.Value()));
    }
  }

  /** Serialising a response and writing it; a response that does not fit is dropped without notice. */
  method SendResponse(transport: Transport, render: Printer, r: Response, buf: array<byte>)
    returns (ok: bool, ghost wrote: seq<seq<byte>>)
    requires transport.Valid() && buf.Length == MAX_MSG_LEN && (transport.Tcp? ==> buf != transport.reader.buf)
    modifies transport.socket, buf
    ensures transport.Valid()
    ensures (var closed, results := old(transport.socket.aborted), old(transport.socket.writeResults);
             && Sending(ok, wrote) == SendingOf(transport.Kind(), FrameOf(render, r), !closed, results)
             && transport.socket.written == old(transport.socket.written) + wrote
             && transport.socket.writeResults == Later(results, |wrote|)
             && transport.socket.aborted == (closed || !ok)
             && transport.Unread() == if !closed && !ok then Cut(old(transport.Unread()), transport.socket.surviving)
                                      else old(transport.Unread()))
  {
    hide Attempted, AllSent, Later, WriteOk, Packets, Socket.Pending, Socket.End;
    ghost var results, before := transport.socket.writeResults, transport.socket.written;
    LaterWrites(results, 0, 0);
    var n := Framing.SerializeResponse(render(r), buf);
    if n.Err? {
      return true, [];
    }
    var w := transport.WriteFrame(buf[..n.value]);
    ok, wrote := w.Ok?, transport.socket.written[|before|..];
  }

  /** One turn of the loop: what a read result does to the state, and its answer on the wire. */
  method Reply(transport: Transport, parse: Parser, render: Printer, state: DeviceState, r: ReadResult,
               buf: array<byte>) returns (o: Outcome, ok: bool, ghost wrote: seq<seq<byte>>)
    requires !Ends(r) && state.Valid()
    requires transport.Valid() && buf.Length == MAX_MSG_LEN && (transport.Tcp? ==> buf != transport.reader.buf)
    modifies state, transport.socket, buf
    ensures transport.Valid() && state.Valid() && Effect(state.Value(), o) == EventOn(parse, r, old(state.Value()))
    ensures (var closed, results := old(transport.socket.aborted), old(transport.socket.writeResults);
             && Sending(ok, wrote) == SendingOf(transport.Kind(), FrameFor(render, o), !closed, results)
             && transport.socket.written == old(transport.socket.written) + wrote
             && transport.socket.writeResults == Later(results, |wrote|)
             && transport.socket.aborted == (closed || !ok)
             && transport.Unread() == if !closed && !ok then Cut(old(transport.Unread()), transport.socket.surviving)
                                      else old(transport.Unread()))
  {
    hide EventOn, FrameOf, Later, WriteOk, StepOf, ParseCommand, Packets, Cut;
    LaterWrites(transport.socket.writeResults, 0, 0);
    ok, wrote := true, [];
    if r.Err? {
      ProtocolErrorOn(parse, r, state.Value());
      o := Answer(ErrorResponse("", r.error.code));
    } else {
      o := AnswerFrame(parse, state, r.value);
    }
    if o.Answer? {
      ok, wrote := SendResponse(transport, render, o.response, buf);
    }
  }

  lemma WrittenLater(already: seq<seq<byte>>, writes: seq<seq<byte>>, replies: seq<seq<byte>>, more: seq<seq<byte>>)
    ensures already + writes + replies + more == already + (writes + replies + more)
    ensures already + writes + replies == already + (writes + replies)
    ensures writes + replies + [] == writes + replies
    ensures |writes + replies + more| == |writes| + |replies| + |more|
  {
  }

  /** The transport, the device state and the socket's writes are at a position of the session. */
  ghost predicate Holds(talk: Conversation, p: Position, transport: Transport, state: DeviceState,
                        already: seq<seq<byte>>)
    requires state.Valid()
    reads transport.socket, if transport.Tcp? then {transport.reader} else {}, state
  {
    var socket := transport.socket;
    && transport.Unread() == p.feed && socket.aborted == !p.open && state.Value() == p.state
    && socket.written == already + p.writes && socket.writeResults == Later(talk.results, |p.writes|)
    && talk.kind == transport.Kind() && talk.surviving == socket.surviving
  }

  /** The body of the loop: whether it goes on, else why it ends. */
  method OneTurn(transport: Transport, parse: Parser, render: Printer, state: DeviceState, buf: array<byte>,
                 response: array<byte>, ghost talk: Conversation, ghost p: Position, ghost already: seq<seq<byte>>)
    returns (end: Option<End>)
    requires transport.Valid() && state.Valid() && buf.Length == response.Length == MAX_MSG_LEN
    requires transport.Tcp? ==> buf != transport.reader.buf && response != transport.reader.buf
    requires talk.parse == parse && talk.render == render && Holds(talk, p, transport, state, already)
    modifies state, transport.socket, buf, response
    modifies if transport.Tcp? then {transport.reader, transport.reader.buf} else {}
    ensures transport.Valid() && (transport.Tcp? ==> transport.reader.buf == old(transport.reader.buf))
    ensures state.Valid() && Holds(talk, talk.Next(p), transport, state, already)
    ensures end == if talk.GoesOn(p) then None else Some(talk.EndOf(p))
    ensures end.None? ==> |transport.Unread().bytes| < |old(transport.Unread()).bytes|
  {
    hide EventOn, FrameFor, SendingOf, Later, WriteOk, StepOf, ParseCommand, ReadOn, Cut;
    hide Conversation.SendingAt, Conversation.AnswerAt, Conversation.GoesOn, Conversation.EndOf, Conversation.Next;
    hide Conversation.ResultsAt, DeviceState.Valid, Socket.Pending, Socket.End, Transport.Valid;
    talk.Turn(p);
    talk.ResultsLeft(p, 0);
    var r := transport.ReadFrame(buf);
    WrittenLater(already, p.writes, talk.Replies(p), []);
    if r.Err? && !r.error.ProtocolError? {
      return Some(Hangup(r.error));
    }
    var o, ok, wrote :=
      Reply(transport, parse, render, state, if r.Ok? then Ok(buf[..r.value]) else Err(r.error), response);
    talk.ResultsLeft(p, |wrote|);
    WrittenLater(already, p.writes, talk.Replies(p), wrote);
    if r.Err? {
      return None;
    } else if o.Panic? {
      return Some(Panicked);
    } else if !ok {
      return Some(WriteFailed);
    }
    end := if state.pendingReboot then Some(Rebooted) else None;
  }

  /** `handle_client`. Main theorem of the loop, over every run on either transport: the reads it takes, the state
      as the fold of exactly those, everything written, and why it ends, also when an abort leaves received bytes
      that are still read and executed. */
  method HandleClient(transport: Transport, parse: Parser, render: Printer, ssid: string, ip: string)
    returns (state: DeviceState, end: End, ghost talk: Conversation, ghost n: nat)
    requires transport.Valid() && !transport.socket.aborted
    modifies transport.socket, if transport.Tcp? then {transport.reader, transport.reader.buf} else {}
    ensures talk == Conversation(transport.Kind(), parse, render, old(transport.Unread()), Fresh(ssid, ip),
                                 old(transport.socket.writeResults), transport.socket.surviving)
    ensures state.Valid() && fresh(state) && talk.Ended(n, state.Value(), talk.At(n).writes, end)
    ensures transport.socket.written == old(transport.socket.written) + talk.At(n).writes
  {
    hide Later, Conversation.GoesOn, Conversation.EndOf, Conversation.Next, Conversation.Reaches, Transport.Valid;
    hide DeviceState.Valid;
    var socket := transport.socket;
    ghost var already := socket.written;
    talk := Conversation(transport.Kind(), parse, render, transport.Unread(), Fresh(ssid, ip), socket.writeResults,
                         socket.surviving);
    var buf := new byte[MAX_MSG_LEN](_ => 0);
    var response := new byte[MAX_MSG_LEN](_ => 0);
    state := new DeviceState(ssid, ip);
    n := 0;
    LaterWrites(talk.results, 0, 0);
    assert already + [] == already;
    talk.Reached(0);
    while true
      invariant transport.Valid() && state.Valid() && fresh(state)
      invariant transport.Tcp? ==> transport.reader.buf == old(transport.reader.buf)
      invariant Holds(talk, talk.At(n), transport, state, already) && talk.Reaches(n)
      decreases |transport.Unread().bytes|
    {
      talk.Reached(n);
      n := n + 1;
      var over := OneTurn(transport, parse, render, state, buf, response, talk, talk.At(n - 1), already);
      if over.Some? {
        end := over.value;
        return;
      }
    }
  }

  // ---- what the state depends on -------------------------------------------------------------------

  /** The command of a read result: a frame that parses and is routed. */
  function CommandOf(parse: Parser, r: ReadResult): seq<Command> {
    if r.Err? then []
    else
      match ParseCommand(parse, r.value)
      case Err(_) => []
      case Ok(cmd) => if ValidateRoute(cmd).Ok? then [cmd] else []
  }

  function CommandsIn(parse: Parser, results: seq<ReadResult>): seq<Command> {
    if |results| == 0 then []
    else CommandsIn(parse, results[..|results| - 1]) + CommandOf(parse, results[|results| - 1])
  }

  lemma CommandsSnoc(parse: Parser, results: seq<ReadResult>, r: ReadResult)
    ensures CommandsIn(parse, results + [r]) == CommandsIn(parse, results) + CommandOf(parse, r)
    ensures r.Err? ==> CommandsIn(parse, results + [r]) == CommandsIn(parse, results)
  {
    hide ParseCommand, ValidateRoute;
    assert (results + [r])[..|results|] == results;
    assert CommandsIn(parse, results) + [] == CommandsIn(parse, results);
  }

  /** The state is the fold of dispatch over the frames that parsed and routed, in order; malformed frames,
      unknown routes and protocol errors never show in it. */
  lemma {:induction false} StateIsFold(talk: Conversation, k: nat)
    ensures talk.At(k).state == StateAfter(talk.start, CommandsIn(talk.parse, talk.Reads(k)))
  {
    hide StepOf, ParseCommand, CommandOf, EventOn, CommandsIn, ReadOn, Cut;
    hide Conversation.SendingAt, Conversation.Replies;
    if k == 0 {
      NoCommands(talk.parse, talk.start);
    } else {
      StateIsFold(talk, k - 1);
      var p := talk.At(k - 1);
      var r := talk.EventAt(p).result;
      CommandsSnoc(talk.parse, talk.Reads(k - 1), r);
      CommandEffect(talk.parse, r, talk.start, CommandsIn(talk.parse, talk.Reads(k - 1)));
    }
  }

  lemma NoCommands(parse: Parser, s: DeviceValue)
    ensures CommandsIn(parse, []) == [] && StateAfter(s, []) == s
  {
  }

  lemma CommandEffect(parse: Parser, r: ReadResult, s: DeviceValue, cmds: seq<Command>)
    ensures StateAfter(s, cmds + CommandOf(parse, r))
         == if Ends(r) then StateAfter(s, cmds) else EventOn(parse, r, StateAfter(s, cmds)).state
  {
    hide StepOf, ParseCommand;
    var more := CommandOf(parse, r);
    if more == [] {
      assert cmds + more == cmds;
      NoCommandNoChange(parse, r, StateAfter(s, cmds));
    } else {
      assert (cmds + more)[..|cmds|] == cmds && (cmds + more)[|cmds|] == more[0];
    }
  }

  lemma NoCommandNoChange(parse: Parser, r: ReadResult, s: DeviceValue)
    requires CommandOf(parse, r) == []
    ensures !Ends(r) ==> EventOn(parse, r, s).state == s
  {
    hide ParseCommand, ValidateRoute, DispatchOf;
  }

  /** Once the connection is aborted nothing more is written, whatever is still read. */
  lemma {:induction false} ClosedWritesNothing(talk: Conversation, j: nat, k: nat)
    requires j <= k && !talk.At(j).open
    ensures !talk.At(k).open && talk.At(k).writes == talk.At(j).writes
  {
    hide Conversation.At, Conversation.Next;
    if j < k {
      ClosedWritesNothing(talk, j, k - 1);
      talk.OneMore(k - 1);
      ClosedTurn(talk, talk.At(k - 1));
    }
  }

  lemma ClosedTurn(talk: Conversation, p: Position)
    requires !p.open
    ensures !talk.Next(p).open && talk.Next(p).writes == p.writes
  {
    hide EventOn, ReadOn, Cut, AnswerTo, AllSent, Attempted, Packets, Later;
    assert p.writes + [] + [] == p.writes;
  }

  lemma ReachedBefore(talk: Conversation, n: nat)
    requires n > 0 && talk.Reaches(n)
    ensures talk.Reaches(n - 1) && talk.GoesOn(talk.At(n - 1))
  {
    hide Conversation.GoesOn, Conversation.At;
  }

  /** What goes on does not end, and keeps the connection as it is unless the read aborts it. */
  lemma GoingOn(talk: Conversation, p: Position)
    requires talk.GoesOn(p)
    ensures !Ends(talk.EventAt(p).result)
    ensures talk.EventAt(p).result.Ok? ==> talk.SendingAt(p).ok && talk.Next(p).open == p.open
    ensures Aborts(talk.kind, talk.EventAt(p).result) ==> !talk.Next(p).open
  {
    hide EventOn, ReadOn, Cut, AllSent, Attempted, Packets, AnswerTo;
  }

  // ---- what the answers are ----------------------------------------------------------------------------

  /** The response a read calls for in a state: an error without id for a read or frame that is refused, else what
      the router answers; none at the end and for a panic. */
  function ResponseTo(parse: Parser, r: ReadResult, s: DeviceValue): Option<Response> {
    match r
    case Err(ProtocolError(code)) => Some(Response("", false, None, Some(code)))
    case Err(_) => None
    case Ok(frame) =>
      if |frame| > 1024 then Some(Response("", false, None, Some(MsgTooLarge)))
      else
        (match parse(frame)
         case None => Some(Response("", false, None, Some(MalformedJson)))
         case Some(cmd) =>
           if cmd.version.None? then Some(Response("", false, None, Some(MissingVersion)))
           else if cmd.version.value != 1 then Some(Response("", false, None, Some(UnsupportedVersion)))
           else
             (match StepOf(cmd, s).outcome
              case Panic => None
              case Answer(response) => Some(response)))
  }

  /** The text of a response, if it fits 1023 bytes. */
  function Rendered(render: Printer, o: Option<Response>): (texts: seq<seq<byte>>)
    ensures |texts| <= 1
  {
    if o.Some? && |render(o.value)| <= 1023 then [render(o.value)] else []
  }

  /** The texts of the answers to a sequence of reads: each on the state the commands before it left. */
  function AnswerTexts(parse: Parser, render: Printer, start: DeviceValue, results: seq<ReadResult>): seq<seq<byte>> {
    if |results| == 0 then []
    else
      var n := |results| - 1;
      AnswerTexts(parse, render, start, results[..n])
      + Rendered(render, ResponseTo(parse, results[n], StateAfter(start, CommandsIn(parse, results[..n]))))
  }

  /** Every text with its newline. */
  function Lined(texts: seq<seq<byte>>): (lines: seq<seq<byte>>)
    ensures |lines| == |texts|
  {
    seq(|texts|, j requires 0 <= j < |texts| => texts[j] + [10])
  }

  /** Main theorem of the answers: what read `k` is answered on an open connection, and nothing on an aborted one. */
  lemma AnswerGiven(talk: Conversation, k: nat)
    ensures var p := talk.At(k);
            var s := StateAfter(talk.start, CommandsIn(talk.parse, talk.Reads(k)));
            talk.Given(p) == if talk.OpenAt(p)
                             then Lined(Rendered(talk.render, ResponseTo(talk.parse, talk.EventAt(p).result, s)))
                             else []
  {
    hide StepOf, ReadOn, Conversation.At, Conversation.Reads, CommandsIn, StateAfter;
    StateIsFold(talk, k);
    AnswerCases(talk.parse, talk.render, talk.EventAt(talk.At(k)).result, talk.At(k).state);
  }

  lemma AnswerCases(parse: Parser, render: Printer, r: ReadResult, s: DeviceValue)
    ensures AnswerTo(parse, render, r, s) == Lined(Rendered(render, ResponseTo(parse, r, s)))
  {
    hide StepOf;
  }

  /** While the connection is open, all reads so far have left it open. */
  lemma {:induction false} OpenSoFar(talk: Conversation, k: nat)
    ensures talk.At(k).open ==> talk.OpenReads(k) == k
  {
    hide EventOn, ReadOn, Cut, AnswerTo, AllSent, Attempted, Packets;
    if k > 0 {
      OpenSoFar(talk, k - 1);
    }
  }

  /** The answers given are exactly the rendered responses to the reads before an abort, in order. */
  lemma {:induction false} AnswersAreResponses(talk: Conversation, k: nat)
    ensures var texts := AnswerTexts(talk.parse, talk.render, talk.start, talk.Reads(talk.OpenReads(k)));
            talk.Bodies(k) == texts && talk.Answers(k) == Lined(texts)
  {
    hide ResponseTo, Rendered, StateAfter, CommandsIn, AnswerTexts, Lined, Conversation.At, Conversation.Given;
    hide Conversation.OpenAt, Conversation.EventAt, Conversation.Answers, Conversation.Bodies, Conversation.Reads;
    NoTexts(talk.parse, talk.render, talk.start);
    if k == 0 {
      talk.OneMore(0);
      talk.OneMoreAnswered(0);
    } else {
      AnswersAreResponses(talk, k - 1);
      talk.OneMore(k - 1);
      talk.OneMoreAnswered(k - 1);
      var p, answers, bodies := talk.At(k - 1), talk.Answers(k - 1), talk.Bodies(k - 1);
      AnswerGiven(talk, k - 1);
      if talk.OpenAt(p) {
        OpenBefore(talk, p);
        OpenSoFar(talk, k - 1);
        var results, r := talk.Reads(k - 1), talk.EventAt(p).result;
        OneMoreText(talk.parse, talk.render, talk.start, results, r);
      } else {
        assert answers + [] == answers && bodies + [] == bodies;
      }
    }
  }

  lemma NoTexts(parse: Parser, render: Printer, start: DeviceValue)
    ensures AnswerTexts(parse, render, start, []) == [] && Lined([]) == []
  {
  }

  lemma OneMoreText(parse: Parser, render: Printer, start: DeviceValue, results: seq<ReadResult>, r: ReadResult)
    ensures var texts := AnswerTexts(parse, render, start, results);
            var more := Rendered(render, ResponseTo(parse, r, StateAfter(start, CommandsIn(parse, results))));
            && AnswerTexts(parse, render, start, results + [r]) == texts + more
            && Lined(texts + more) == Lined(texts) + Lined(more)
            && texts + more
               == texts + (if Lined(more) == [] then [] else [Lined(more)[0][..|Lined(more)[0]| - 1]])
  {
    hide ResponseTo, Rendered, StateAfter, CommandsIn, Lined;
    assert (results + [r])[..|results|] == results;
    LinedMore(AnswerTexts(parse, render, start, results),
              Rendered(render, ResponseTo(parse, r, StateAfter(start, CommandsIn(parse, results)))));
  }

  lemma OpenBefore(talk: Conversation, p: Position)
    requires talk.OpenAt(p)
    ensures p.open
  {
  }

  lemma LinedMore(texts: seq<seq<byte>>, more: seq<seq<byte>>)
    requires |more| <= 1
    ensures Lined(texts + more) == Lined(texts) + Lined(more)
    ensures more == [] ==> Lined(more) == [] && texts + more == texts
    ensures more != [] ==> Lined(more) != [] && [Lined(more)[0][..|Lined(more)[0]| - 1]] == more
  {
  }

  // ---- TCP -------------------------------------------------------------------------------------------

  /** The reads of a TCP session are its newline segments, however much of them an abort leaves. */
  lemma {:induction false} TcpReads(talk: Conversation, k: nat)
    requires talk.kind.TcpKind? && talk.feed.segment == [] && !talk.feed.end.ProtocolError?
    requires forall j | 0 <= j < k :: !Ends(talk.EventAt(talk.At(j)).result)
    ensures (var segments, p := Framing.Segments(talk.feed.bytes), talk.At(k);
             && k <= |segments| && talk.Reads(k) == TcpTransport.ResultsOf(segments[..k])
             && p.feed.segment == [] && !p.feed.end.ProtocolError?
             && Framing.Split(p.feed.bytes, []).0 <= segments[k..]
             && (p.open ==> Framing.Split(p.feed.bytes, []).0 == segments[k..] && p.feed.end == talk.feed.end))
  {
    hide EventOn, Framing.Split, TcpTransport.ReadFrameOf, TcpTransport.ResultOf, Framing.ReportOf;
    hide Conversation.SendingAt, Conversation.Replies, Conversation.At, Conversation.Reads;
    var segments := Framing.Segments(talk.feed.bytes);
    if k == 0 {
      talk.OneMore(0);
      assert segments[0..] == segments && TcpTransport.ResultsOf(segments[..0]) == [];
    } else {
      talk.OneMore(k - 1);
      TcpReads(talk, k - 1);
      NextSegment(talk, talk.At(k - 1), segments, k - 1);
    }
  }

  lemma NextSegment(talk: Conversation, p: Position, segments: seq<seq<byte>>, k: nat)
    requires talk.kind.TcpKind? && p.feed.segment == [] && !p.feed.end.ProtocolError?
    requires !Ends(talk.EventAt(p).result) && k <= |segments|
    requires Framing.Split(p.feed.bytes, []).0 <= segments[k..]
    ensures k < |segments|
    ensures TcpTransport.ResultsOf(segments[..k]) + [talk.EventAt(p).result]
         == TcpTransport.ResultsOf(segments[..k + 1])
    ensures (var next := talk.Next(p).feed;
             && next.segment == [] && !next.end.ProtocolError?
             && Framing.Split(next.bytes, []).0 <= segments[k + 1..]
             && (p.open && talk.Next(p).open && Framing.Split(p.feed.bytes, []).0 == segments[k..] ==>
                   Framing.Split(next.bytes, []).0 == segments[k + 1..] && next.end == p.feed.end)
             && (talk.Next(p).open ==> p.open))
  {
    hide EventOn, Framing.Split, TcpTransport.ReadFrameOf, TcpTransport.ResultOf, Framing.ReportOf;
    hide Conversation.SendingAt, Conversation.Replies;
    TcpTransport.ReadIsSplit(p.feed.bytes, [], p.feed.end);
    var rest := talk.EventAt(p).rest.bytes;
    var left := Survivors(rest, talk.surviving);
    Framing.SplitOfPrefix(left, rest[|left|..], []);
    assert left + rest[|left|..] == rest;
    assert segments[k..][1..] == segments[k + 1..];
    assert segments[..k + 1] == segments[..k] + [segments[k]];
  }

  /** The writes of a TCP session are the answers themselves. */
  lemma {:induction false} TcpWritesAreAnswers(talk: Conversation, k: nat)
    requires talk.kind.TcpKind?
    ensures talk.At(k).writes == talk.Answers(k)
  {
    hide Conversation.At, Conversation.Answers, Conversation.Next;
    talk.OneMore(if k > 0 then k - 1 else 0);
    talk.OneMoreAnswered(if k > 0 then k - 1 else 0);
    if k > 0 {
      TcpWritesAreAnswers(talk, k - 1);
      TcpTurn(talk, talk.At(k - 1));
    }
  }

  lemma TcpTurn(talk: Conversation, p: Position)
    requires talk.kind.TcpKind?
    ensures talk.Next(p).writes == p.writes + talk.Given(p)
  {
    hide Later, WriteOk, AllSent, AnswerTo, EventOn, TcpTransport.ReadFrameOf, Cut;
    assert p.writes + [] == p.writes;
  }

  /** A client of `tcp_server`. Main theorem over TCP: whatever bytes arrive, in whatever pieces, and however the
      connection and the writes fail, the session ends in the fold of dispatch over the commands of its first `m`
      newline segments, those it has read, and has written exactly the answers it had a connection for. An open
      connection is read to its end. */
  method ServeTcp(socket: Socket, parse: Parser, render: Printer, ssid: string, ip: string)
    returns (state: DeviceState, end: End, ghost talk: Conversation, ghost n: nat)
    requires !socket.aborted
    modifies socket
    ensures talk == Conversation(TcpKind, parse, render, Feed(old(socket.Pending()), [], old(socket.End())),
                                 Fresh(ssid, ip), old(socket.writeResults), socket.surviving)
    ensures state.Valid() && talk.Ended(n, state.Value(), talk.At(n).writes, end)
    ensures var segments, m := Framing.Segments(old(socket.Pending())), if end.Hangup? then n - 1 else n;
            && m <= |segments|
            && state.Value() == StateAfter(Fresh(ssid, ip),
                                           CommandsIn(parse, TcpTransport.ResultsOf(segments[..m])))
            && (end.Hangup? && talk.At(m).open ==> m == |segments| && end == Hangup(old(socket.End())))
    ensures socket.written == old(socket.written) + talk.Answers(n)
  {
    hide StateAfter, CommandsIn, Framing.Split, Socket.Pending, Socket.End, Conversation.At, Conversation.Answers;
    var reader := new Framing.FrameReader();
    ghost var bytes, at := socket.Pending(), socket.End();
    state, end, talk, n := HandleClient(Tcp(socket, reader), parse, render, ssid, ip);
    StateIsFold(talk, n);
    TcpReadsToEnd(talk, n, end);
    TcpWritesAreAnswers(talk, n);
  }

  lemma TcpReadsToEnd(talk: Conversation, n: nat, end: End)
    requires talk.kind.TcpKind? && talk.feed.segment == [] && !talk.feed.end.ProtocolError?
    requires talk.Ended(n, talk.At(n).state, talk.At(n).writes, end)
    ensures (var segments, m := Framing.Segments(talk.feed.bytes), if end.Hangup? then n - 1 else n;
             && m <= |segments|
             && CommandsIn(talk.parse, talk.Reads(n)) == CommandsIn(talk.parse, TcpTransport.ResultsOf(segments[..m]))
             && (end.Hangup? && talk.At(m).open ==> m == |segments| && end == Hangup(talk.feed.end)))
  {
    hide EventOn, CommandsIn, Framing.Split, TcpTransport.ReadFrameOf, TcpTransport.ResultOf, Conversation.At;
    hide Conversation.SendingAt, Conversation.AnswerAt;
    var p := talk.At(n - 1);
    forall j | 0 <= j < n - 1
      ensures !Ends(talk.EventAt(talk.At(j)).result)
    {
      GoingOn(talk, talk.At(j));
    }
    TcpReads(talk, n - 1);
    TcpTransport.ReadIsSplit(p.feed.bytes, [], p.feed.end);
    if end.Hangup? {
      CommandsSnoc(talk.parse, talk.Reads(n - 1), talk.EventAt(p).result);
    } else {
      TcpReads(talk, n);
    }
  }

  // ---- WebSocket ---------------------------------------------------------------------------------------

  /** The reads of a WebSocket until its end. The first error aborts the connection; after a protocol error the
      bytes that survive are still read. */
  function WsReads(bytes: seq<byte>, end: TransportError, open: bool, surviving: nat): (r: seq<ReadResult>)
    requires !end.ProtocolError?
    ensures |r| > 0
    decreases |bytes|
  {
    var i := WsTransport.ReadFrameOf(bytes, end);
    var first: ReadResult := i.result;
    [first] + if Ends(first) then []
              else if first.Ok? || !open then WsReads(i.rest, end, open, surviving)
              else WsReads(Survivors(i.rest, surviving), Disconnected, false, surviving)
  }

  lemma WsReadsStep(bytes: seq<byte>, end: TransportError, open: bool, surviving: nat)
    requires !end.ProtocolError?
    ensures (var i := WsTransport.ReadFrameOf(bytes, end);
             var first: ReadResult := i.result;
             WsReads(bytes, end, open, surviving) ==
             [first] + if Ends(first) then []
                       else if first.Ok? || !open then WsReads(i.rest, end, open, surviving)
                       else WsReads(Survivors(i.rest, surviving), Disconnected, false, surviving))
  {
    hide WsTransport.ReadFrameOf;
  }

  /** A WebSocket session takes the first of those reads. */
  lemma {:induction false} WsReadsTaken(talk: Conversation, k: nat)
    requires talk.kind.WsKind? && !talk.feed.end.ProtocolError? && talk.Reaches(k)
    ensures (var all, p := WsReads(talk.feed.bytes, talk.feed.end, true, talk.surviving), talk.At(k);
             && k < |all| && talk.Reads(k) == all[..k] && talk.EventAt(p).result == all[k]
             && !p.feed.end.ProtocolError?
             && WsReads(p.feed.bytes, p.feed.end, p.open, talk.surviving) == all[k..])
  {
    hide EventOn, WsReads, WsTransport.ReadFrameOf, Conversation.SendingAt, Conversation.Replies, Conversation.GoesOn;
    var all, p := WsReads(talk.feed.bytes, talk.feed.end, true, talk.surviving), talk.At(k);
    if k > 0 {
      ReachedBefore(talk, k);
      WsReadsTaken(talk, k - 1);
      var before := talk.At(k - 1);
      GoingOn(talk, before);
      WsReadsStep(before.feed.bytes, before.feed.end, before.open, talk.surviving);
      assert all[k - 1..][1..] == all[k..];
    }
    WsReadsStep(p.feed.bytes, p.feed.end, p.open, talk.surviving);
  }

  function Delivered(texts: seq<seq<byte>>): (r: seq<ReadResult>)
    ensures |r| == |texts|
  {
    seq(|texts|, k requires 0 <= k < |texts| => Ok(texts[k]))
  }

  /** What is read is the texts, then the error; more only after a protocol error, from what survives it. */
  lemma {:induction false} WsReadsAreTexts(bytes: seq<byte>, end: TransportError, surviving: nat)
    requires !end.ProtocolError?
    ensures (var all, r := WsReads(bytes, end, true, surviving), WsTransport.Receive(bytes, end);
             && |all| > |r.texts| && all[..|r.texts|] == Delivered(r.texts) && all[|r.texts|] == Err(r.error)
             && (!r.error.ProtocolError? ==> |all| == |r.texts| + 1)
             && (r.error.ProtocolError? && surviving == 0 ==> all[|r.texts| + 1..] == [Err(Disconnected)]))
    decreases |bytes|
  {
    hide WsReads, WsTransport.ReadFrameOf, WsTransport.Receive;
    var i := WsTransport.ReadFrameOf(bytes, end);
    var all := WsReads(bytes, end, true, surviving);
    WsReadsStep(bytes, end, true, surviving);
    WsTransport.ReceiveStep(bytes, end);
    if i.result.Ok? {
      WsReadsAreTexts(i.rest, end, surviving);
      var rest, texts := WsReads(i.rest, end, true, surviving), WsTransport.Receive(i.rest, end).texts;
      assert all[..|texts| + 1] == [all[0]] + rest[..|texts|];
      assert Delivered([i.result.value] + texts) == [all[0]] + Delivered(texts);
      assert all[|texts| + 2..] == rest[|texts| + 1..];
    } else if surviving == 0 {
      WsReadsStep([], Disconnected, false, surviving);
      WsTransport.FrameStep([], Disconnected);
    }
  }

  /** The commands of the first `n` reads are those of the texts read, unless bytes that survive an abort are. */
  lemma CommandsOfTexts(parse: Parser, bytes: seq<byte>, end: TransportError, surviving: nat, n: nat)
    requires !end.ProtocolError? && n <= |WsReads(bytes, end, true, surviving)|
    requires n <= |WsTransport.Receive(bytes, end).texts| + 1 || surviving == 0
    ensures (var all, texts := WsReads(bytes, end, true, surviving), WsTransport.Receive(bytes, end).texts;
             CommandsIn(parse, all[..n]) == CommandsIn(parse, Delivered(texts[..Min(n, |texts|)])))
  {
    hide WsReads, WsTransport.Receive, CommandsIn;
    var all, texts := WsReads(bytes, end, true, surviving), WsTransport.Receive(bytes, end).texts;
    WsReadsAreTexts(bytes, end, surviving);
    var m := Min(n, |texts|);
    assert all[..m] == Delivered(texts)[..m] == Delivered(texts[..m]);
    if n > |texts| {
      CommandsSnoc(parse, all[..|texts|], all[|texts|]);
      assert all[..|texts| + 1] == all[..|texts|] + [all[|texts|]];
    }
    if n > |texts| + 1 {
      assert all[|texts| + 1] == all[|texts| + 1..][0];
      CommandsSnoc(parse, all[..|texts| + 1], all[|texts| + 1]);
      assert all[..n] == all[..|texts| + 1] + [all[|texts| + 1]];
    }
  }

  /** A client of `ws_server` after the upgrade. Main theorem over a WebSocket: whatever bytes arrive and whatever
      fails, the session ends in the fold of dispatch over its first `n` reads: the text payloads, and after a frame
      that is too large what survives the abort. The socket ends aborted. */
  method ServeWs(socket: Socket, parse: Parser, render: Printer, ssid: string, ip: string)
    returns (state: DeviceState, end: End, ghost talk: Conversation, ghost n: nat)
    requires !socket.aborted
    modifies socket
    ensures talk == Conversation(WsKind, parse, render, Feed(old(socket.Pending()), [], old(socket.End())),
                                 Fresh(ssid, ip), old(socket.writeResults), socket.surviving)
    ensures state.Valid() && socket.aborted && talk.Ended(n, state.Value(), talk.At(n).writes, end)
    ensures var all := WsReads(old(socket.Pending()), old(socket.End()), true, socket.surviving);
            n <= |all| && state.Value() == StateAfter(Fresh(ssid, ip), CommandsIn(parse, all[..n]))
    ensures var texts := WsTransport.Receive(old(socket.Pending()), old(socket.End())).texts;
            n <= |texts| + 1 || socket.surviving == 0 ==>
              state.Value() == StateAfter(Fresh(ssid, ip), CommandsIn(parse, Delivered(texts[..Min(n, |texts|)])))
    ensures socket.written == old(socket.written) + talk.At(n).writes
  {
    hide StateAfter, CommandsIn, WsReads, WsTransport.Receive, Socket.Pending, Socket.End, Conversation.At;
    hide Conversation.Ended;
    state, end, talk, n := HandleClient(Ws(socket), parse, render, ssid, ip);
    socket.Abort();
    AtTheEnd(talk, n, state.Value(), talk.At(n).writes, end);
    StateIsFold(talk, n);
    WsReadsToEnd(talk, n, end);
  }

  lemma AtTheEnd(talk: Conversation, n: nat, state: DeviceValue, writes: seq<seq<byte>>, end: End)
    requires talk.Ended(n, state, writes, end)
    ensures n > 0 && state == talk.At(n).state && talk.Ended(n, talk.At(n).state, writes, end)
  {
  }

  lemma WsReadsToEnd(talk: Conversation, n: nat, end: End)
    requires talk.kind.WsKind? && !talk.feed.end.ProtocolError?
    requires talk.Ended(n, talk.At(n).state, talk.At(n).writes, end)
    ensures var all := WsReads(talk.feed.bytes, talk.feed.end, true, talk.surviving);
            n <= |all| && talk.Reads(n) == all[..n]
    ensures var texts := WsTransport.Receive(talk.feed.bytes, talk.feed.end).texts;
            n <= |texts| + 1 || talk.surviving == 0 ==>
              CommandsIn(talk.parse, talk.Reads(n)) == CommandsIn(talk.parse, Delivered(texts[..Min(n, |texts|)]))
  {
    hide CommandsIn, WsReads, WsTransport.Receive, Conversation.At, Conversation.EndOf, Conversation.GoesOn;
    hide Conversation.Reaches, Conversation.EventAt;
    var all := WsReads(talk.feed.bytes, talk.feed.end, true, talk.surviving);
    WsReadsTaken(talk, n - 1);
    talk.OneMore(n - 1);
    assert talk.Reads(n) == all[..n];
    if n <= |WsTransport.Receive(talk.feed.bytes, talk.feed.end).texts| + 1 || talk.surviving == 0 {
      CommandsOfTexts(talk.parse, talk.feed.bytes, talk.feed.end, talk.surviving, n);
    }
  }

  // ---- what the client sees --------------------------------------------------------------------------

  function Concat(frames: seq<seq<byte>>): seq<byte> {
    if |frames| == 0 then [] else frames[0] + Concat(frames[1..])
  }

  ghost predicate NoNewlines(render: Printer) {
    forall r :: 10 !in render(r)
  }

  /** A client that reassembles the bytes of a TCP session with the same framing recovers every answer that fit,
      whole and in order, with nothing left over, provided the printer emits no newline; from the part of the bytes
      that reaches it, the first ones. */
  lemma ClientRecoversAnswers(talk: Conversation, k: nat, part: nat)
    requires NoNewlines(talk.render)
    ensures var texts := AnswerTexts(talk.parse, talk.render, talk.start, talk.Reads(talk.OpenReads(k)));
            var stream := Concat(talk.Answers(k));
            && Framing.Tail(stream) == []
            && Framing.Reports(Framing.Segments(stream))
               == seq(|texts|, j requires 0 <= j < |texts| => Framing.Frame(texts[j]))
            && Framing.Segments(Survivors(stream, part)) <= Framing.Segments(stream)
  {
    hide Conversation.Answers, Conversation.Bodies, Conversation.Reads, Conversation.OpenReads, AnswerTexts, Concat;
    hide Framing.Split, Framing.Reports, NoNewlines, FramedTexts;
    AnswersAreResponses(talk, k);
    var stream := Concat(talk.Answers(k));
    AnswersAreJoined(talk, k);
    TextsRecovered(talk.Bodies(k));
    var first := Survivors(stream, part);
    assert stream == first + stream[|first|..];
    Framing.SplitOfPrefix(first, stream[|first|..], []);
  }

  lemma TextsRecovered(texts: seq<seq<byte>>)
    requires FramedTexts(texts)
    ensures Framing.Tail(Framing.Joined(texts)) == []
    ensures Framing.Reports(Framing.Segments(Framing.Joined(texts)))
         == seq(|texts|, j requires 0 <= j < |texts| => Framing.Frame(texts[j]))
  {
    hide Framing.Split, Framing.Reports, Framing.Joined;
    Framing.ResponsesRecovered(texts);
  }

  predicate FramedTexts(bodies: seq<seq<byte>>) {
    && (forall j | 0 <= j < |bodies| :: Framing.NEWLINE !in bodies[j])
    && (forall j | 0 <= j < |bodies| :: |bodies[j]| < MAX_MSG_LEN)
  }

  lemma {:induction false} AnswersAreJoined(talk: Conversation, k: nat)
    requires NoNewlines(talk.render)
    ensures Concat(talk.Answers(k)) == Framing.Joined(talk.Bodies(k)) && FramedTexts(talk.Bodies(k))
  {
    hide Conversation.At, Conversation.Answers, Conversation.Bodies, Conversation.Given, Framing.Joined, Concat;
    hide NoNewlines, FramedTexts;
    if k == 0 {
      NothingJoined();
      talk.OneMoreAnswered(0);
    } else {
      AnswersAreJoined(talk, k - 1);
      talk.OneMoreAnswered(k - 1);
      OneMoreAnswer(talk, talk.At(k - 1), talk.Answers(k - 1), talk.Bodies(k - 1));
    }
  }

  lemma OneMoreAnswer(talk: Conversation, p: Position, answers: seq<seq<byte>>, bodies: seq<seq<byte>>)
    requires NoNewlines(talk.render) && Concat(answers) == Framing.Joined(bodies) && FramedTexts(bodies)
    ensures (var frame := talk.Given(p);
             var more := bodies + if frame == [] then [] else [frame[0][..|frame[0]| - 1]];
             Concat(answers + frame) == Framing.Joined(more) && FramedTexts(more))
  {
    hide Conversation.Given, Framing.Joined, Concat, NoNewlines;
    var frame := talk.Given(p);
    if frame == [] {
      assert answers + frame == answers && bodies + [] == bodies;
    } else {
      GivenIsText(talk, p);
      ConcatAppend(answers, frame);
      OneFrame(frame[0]);
      JoinedSnoc(bodies, frame[0][..|frame[0]| - 1]);
    }
  }

  lemma GivenIsText(talk: Conversation, p: Position)
    requires talk.Given(p) != [] && NoNewlines(talk.render)
    ensures var body := talk.Given(p)[0][..|talk.Given(p)[0]| - 1];
            talk.Given(p) == [body + [Framing.NEWLINE]] && Framing.NEWLINE !in body && |body| < MAX_MSG_LEN
  {
    hide EventOn, ReadOn;
  }

  lemma NothingJoined()
    ensures Concat([]) == [] && Framing.Joined([]) == [] && FramedTexts([])
  {
  }

  lemma OneFrame(f: seq<byte>)
    ensures Concat([f]) == f
  {
    assert [f][1..] == [] && Concat([f][1..]) == [];
  }

  lemma ConcatFirst(frames: seq<seq<byte>>)
    requires |frames| > 0
    ensures Concat(frames) == frames[0] + Concat(frames[1..])
  {
  }

  lemma {:induction false} ConcatAppend(a: seq<seq<byte>>, b: seq<seq<byte>>)
    ensures Concat(a + b) == Concat(a) + Concat(b)
  {
    hide Concat;
    NothingJoined();
    if |a| == 0 {
      assert a + b == b && a == [];
    } else {
      ConcatAppend(a[1..], b);
      ConcatFirst(a);
      ConcatFirst(a + b);
      assert (a + b)[1..] == a[1..] + b;
    }
  }

  lemma {:induction false} JoinedSnoc(bodies: seq<seq<byte>>, b: seq<byte>)
    ensures Framing.Joined(bodies + [b]) == Framing.Joined(bodies) + (b + [Framing.NEWLINE])
  {
    if |bodies| == 0 {
      assert bodies + [b] == [b] && [b][1..] == [];
      assert Framing.Joined([b][1..]) == [];
    } else {
      JoinedSnoc(bodies[1..], b);
      assert (bodies + [b])[1..] == bodies[1..] + [b];
    }
  }

  /** A client that parses what a WebSocket session wrote finds the answers as text frames, whole and in order,
      the pongs between them skipped, whatever follows on the stream. */
  lemma {:induction false} WsAnswersReceived(talk: Conversation, k: nat, rest: seq<byte>, until: TransportError)
    requires talk.kind.WsKind? && talk.Reaches(k)
    ensures WsTransport.Receive(Concat(talk.At(k).writes) + rest, until)
         == WsTransport.Before(talk.Answers(k), [], WsTransport.Receive(rest, until))
  {
    hide WsTransport.Receive, WsTransport.Before, Concat, IsPong, OnlyPongs, Conversation.Next, Conversation.Reaches;
    hide Conversation.GoesOn, Conversation.AnswerAt, Conversation.Replies, Conversation.OpenAt;
    NothingJoined();
    var none: seq<seq<byte>> := [];
    assert none + none == none;
    if k == 0 {
      assert [] + rest == rest;
      WsTransport.BeforeTwice([], [], [], [], WsTransport.Receive(rest, until));
    } else {
      ReachedBefore(talk, k);
      var p := talk.At(k - 1);
      var frame := talk.Given(p);
      var packets := if frame == [] then [] else Packets(WsKind, frame[0]);
      WsTurn(talk, p);
      ConcatThree(p.writes, talk.Replies(p), packets, rest);
      var after := Concat(packets) + rest;
      WsAnswersReceived(talk, k - 1, Concat(talk.Replies(p)) + after, until);
      PongsSkipped(talk.Replies(p), after, until);
      OneAnswer(frame, rest, until);
      WsTransport.BeforeTwice(talk.Answers(k - 1), none, frame, none, WsTransport.Receive(rest, until));
    }
  }

  /** A turn that goes on writes pongs and the whole answer. */
  lemma WsTurn(talk: Conversation, p: Position)
    requires talk.kind.WsKind? && talk.GoesOn(p)
    ensures forall j | 0 <= j < |talk.Replies(p)| :: IsPong(talk.Replies(p)[j])
    ensures var frame := talk.Given(p);
            talk.Next(p).writes == p.writes + talk.Replies(p) + if frame == [] then [] else Packets(WsKind, frame[0])
  {
    hide EventOn, WsTransport.ReadFrameOf, Cut, AllSent, Attempted, Packets, AnswerTo, IsPong;
    RepliesArePongs(p.feed.bytes, p.feed.end);
  }

  lemma ConcatThree(a: seq<seq<byte>>, b: seq<seq<byte>>, c: seq<seq<byte>>, rest: seq<byte>)
    ensures Concat(a + b + c) + rest == Concat(a) + (Concat(b) + (Concat(c) + rest))
  {
    ConcatAppend(a + b, c);
    ConcatAppend(a, b);
  }

  /** An answer on the stream is one text frame. */
  lemma OneAnswer(frame: seq<seq<byte>>, rest: seq<byte>, until: TransportError)
    requires |frame| <= 1 && (frame != [] ==> |frame[0]| <= MAX_MSG_LEN)
    ensures WsTransport.Receive(Concat(if frame == [] then [] else Packets(WsKind, frame[0])) + rest, until)
         == WsTransport.Before(frame, [], WsTransport.Receive(rest, until))
  {
    hide WsTransport.Receive, WsTransport.ReadFrameOf, WsFrame.HeaderBytes;
    var after := WsTransport.Receive(rest, until);
    NothingJoined();
    if frame == [] {
      assert [] + rest == rest;
      WsTransport.BeforeTwice([], [], [], [], after);
    } else {
      var f := WsFrame.TextFrame(frame[0]);
      var header := WsFrame.HeaderBytes(f);
      assert [header, frame[0]] == [header] + [frame[0]];
      ConcatAppend([header], [frame[0]]);
      OneFrame(header);
      OneFrame(frame[0]);
      assert Concat(Packets(WsKind, frame[0])) == WsFrame.FrameBytes(f);
      WsTransport.ReadOneFrame(f, rest, until);
      WsTransport.ReceiveAfter(f, WsFrame.FrameBytes(f) + rest, rest, until);
      assert [f][1..] == [] && frame == [frame[0]];
      assert WsTransport.Texts([f]) == frame && WsTransport.Pongs([f]) == [];
    }
  }

  ghost predicate IsPong(b: seq<byte>) {
    exists p: seq<byte> :: |p| <= 125 && WsTransport.PongReplies(p) == [b]
  }

  lemma {:induction false} PongsSkipped(replies: seq<seq<byte>>, rest: seq<byte>, until: TransportError)
    requires forall k | 0 <= k < |replies| :: IsPong(replies[k])
    ensures WsTransport.Receive(Concat(replies) + rest, until) == WsTransport.Receive(rest, until)
  {
    hide WsTransport.Receive, WsTransport.ReadFrameOf, WsFrame.FrameBytes;
    if |replies| == 0 {
      assert Concat(replies) + rest == rest;
    } else {
      var p: seq<byte> :| |p| <= 125 && WsTransport.PongReplies(p) == [replies[0]];
      var f, tail := WsFrame.PongFrame(p), Concat(replies[1..]) + rest;
      assert Concat(replies) + rest == WsFrame.FrameBytes(f) + tail;
      PongsSkipped(replies[1..], rest, until);
      WsTransport.ReadOneFrame(f, tail, until);
      WsTransport.ReceiveAfter(f, WsFrame.FrameBytes(f) + tail, tail, until);
      assert [f][1..] == [] && WsTransport.Texts([f]) == [] && WsTransport.Pongs([f]) == [];
      WsTransport.BeforeTwice([], [], [], [], WsTransport.Receive(tail, until));
    }
  }

  lemma PongIsPong(p: seq<byte>)
    ensures forall k | 0 <= k < |WsTransport.PongReplies(p)| :: IsPong(WsTransport.PongReplies(p)[k])
  {
    hide WsFrame.FrameBytes;
  }

  /** Before a frame is delivered, and before a protocol error, only pongs are written; before a disconnect perhaps
      one close reply, last. */
  ghost predicate OnlyPongs(replies: seq<seq<byte>>, gone: bool) {
    var n := |replies|;
    var closed := gone && n > 0 && replies[n - 1] == WsTransport.CLOSE_REPLY;
    forall k | 0 <= k < (if closed then n - 1 else n) :: IsPong(replies[k])
  }

  lemma PongsThenReplies(p: seq<byte>, replies: seq<seq<byte>>, gone: bool)
    requires OnlyPongs(replies, gone)
    ensures OnlyPongs(WsTransport.PongReplies(p) + replies, gone)
  {
    hide WsTransport.PongReplies, IsPong;
    PongIsPong(p);
  }

  lemma {:induction false} RepliesArePongs(bytes: seq<byte>, end: TransportError)
    ensures (var i := WsTransport.ReadFrameOf(bytes, end); OnlyPongs(i.replies, i.result == Err(Disconnected)))
    decreases |bytes|
  {
    hide WsTransport.ReadHead, WsTransport.ReadFrameOf, WsTransport.Unmasked, WsTransport.PongReplies, IsPong;
    WsTransport.FrameStep(bytes, end);
    var head := WsTransport.ReadHead(bytes);
    if head.Complete? {
      var h := head.header;
      var body := bytes[h.headerLen..];
      if |body| >= h.payloadLen {
        var i := WsTransport.ReadFrameOf(body[h.payloadLen..], end);
        RepliesArePongs(body[h.payloadLen..], end);
        PongsThenReplies(WsTransport.Unmasked(h, body[..h.payloadLen]), i.replies, i.result == Err(Disconnected));
      }
    }
  }

  /** Replies show the client no text: only pongs and perhaps a close, which ends what it sees. */
  lemma RepliesShowNothing(replies: seq<seq<byte>>, until: TransportError)
    requires OnlyPongs(replies, true)
    ensures WsTransport.Receive(Concat(replies), until).texts == []
  {
    hide WsTransport.Receive, WsTransport.ReadFrameOf, Concat, IsPong;
    var n := |replies|;
    NothingJoined();
    if n > 0 && replies[n - 1] == WsTransport.CLOSE_REPLY {
      var close := WsFrame.Frame(8, WsFrame.OPCODE_CLOSE, None, false, []);
      assert replies == replies[..n - 1] + [WsTransport.CLOSE_REPLY];
      assert WsFrame.FrameBytes(close) == WsTransport.CLOSE_REPLY;
      ConcatAppend(replies[..n - 1], [WsTransport.CLOSE_REPLY]);
      OneFrame(WsTransport.CLOSE_REPLY);
      PongsSkipped(replies[..n - 1], WsTransport.CLOSE_REPLY, until);
      assert WsTransport.CLOSE_REPLY + [] == WsTransport.CLOSE_REPLY;
      WsTransport.ReadOneFrame(close, [], until);
      WsTransport.ReceiveStep(WsTransport.CLOSE_REPLY, until);
    } else {
      PongsSkipped(replies, [], until);
      assert Concat(replies) + [] == Concat(replies);
      NothingReceived(until);
    }
  }

  lemma NothingReceived(until: TransportError)
    ensures WsTransport.Receive([], until).texts == []
  {
    WsTransport.FrameStep([], until);
    WsTransport.ReceiveStep([], until);
  }

  /** What the last turn of a session writes: replies, and of the answer all, nothing, or its first writes. */
  lemma LastTurn(talk: Conversation, p: Position, until: TransportError)
    requires talk.kind.WsKind? && !talk.GoesOn(p)
    ensures var answer := talk.Given(p);
            var sending := talk.SendingAt(p);
            var texts := WsTransport.Receive(Concat(talk.Replies(p)) + Concat(sending.wrote), until).texts;
            && texts <= answer
            && (!talk.EndOf(p).WriteFailed? ==> texts == answer)
  {
    hide WsTransport.Receive, WsTransport.ReadFrameOf, WsTransport.Packets, EventOn, Concat, AllSent, Later;
    hide WriteOk, Cut, IsPong, OnlyPongs, Conversation.ResultsAt, FrameOf;
    var replies, sending := talk.Replies(p), talk.SendingAt(p);
    var answer := talk.Given(p);
    RepliesArePongs(p.feed.bytes, p.feed.end);
    NothingJoined();
    assert OnlyPongs(replies, talk.EventAt(p).result == Err(Disconnected)) by {
      NoPongs();
    }
    if answer == [] {
      assert Concat(replies) + [] == Concat(replies);
      PongsEither(replies, talk.EventAt(p).result == Err(Disconnected));
      RepliesShowNothing(replies, until);
    } else {
      AllPongs(replies);
      PongsSkipped(replies, Concat(sending.wrote), until);
      PartOfAnswer(answer[0], sending.wrote, until);
      assert answer == [answer[0]];
    }
  }

  lemma NoPongs()
    ensures OnlyPongs([], true) && OnlyPongs([], false)
  {
  }

  lemma AllPongs(replies: seq<seq<byte>>)
    requires OnlyPongs(replies, false)
    ensures forall k | 0 <= k < |replies| :: IsPong(replies[k])
  {
    hide IsPong;
  }

  lemma PongsEither(replies: seq<seq<byte>>, gone: bool)
    requires OnlyPongs(replies, gone)
    ensures OnlyPongs(replies, true)
  {
    hide IsPong;
  }

  /** The first writes of an answer show the client the answer or nothing. */
  lemma PartOfAnswer(data: seq<byte>, wrote: seq<seq<byte>>, until: TransportError)
    requires 0 < |data| <= MAX_MSG_LEN && wrote <= WsTransport.Packets(data)
    ensures (var texts := WsTransport.Receive(Concat(wrote), until).texts;
             && (texts == [] || texts == [data])
             && (wrote == WsTransport.Packets(data) ==> texts == [data]))
  {
    hide WsTransport.Receive, WsTransport.ReadFrameOf, WsFrame.HeaderBytes, Concat;
    var f := WsFrame.TextFrame(data);
    NothingJoined();
    NothingReceived(until);
    assert Concat(wrote) + [] == Concat(wrote);
    if |wrote| == 2 {
      assert wrote == Packets(WsKind, [data][0]);
      OneAnswer([data], [], until);
    } else if |wrote| == 1 {
      var header := WsFrame.HeaderBytes(f);
      assert wrote == [header];
      OneFrame(header);
      assert WsFrame.FrameBytes(f)[..|header|] == header;
      WsTransport.CutFrame(f, |header|, until);
      WsTransport.ReceiveStep(header, until);
    }
  }

  lemma TextsAfter(texts: seq<seq<byte>>, r: WsTransport.Received)
    ensures WsTransport.Before(texts, [], r).texts == texts + r.texts
  {
  }

  /** A client that parses what a WebSocket session wrote receives the answers in order: all of them if it receives
      everything and the last write did not fail, the first ones whatever part of the bytes reaches it. A pong or
      close whose write failed counts as written, and so does every write the connection took: with a connection
      that stays broken after a failed write, what reaches the client is such a part. */
  lemma WsClientRecoversAnswers(talk: Conversation, n: nat, end: End, part: nat, until: TransportError)
    requires talk.kind.WsKind? && talk.Ended(n, talk.At(n).state, talk.At(n).writes, end)
    ensures (var stream := Concat(talk.At(n).writes);
             var texts := WsTransport.Receive(stream, until).texts;
             var before := Lined(AnswerTexts(talk.parse, talk.render, talk.start, talk.Reads(talk.OpenReads(n - 1))));
             var all := Lined(AnswerTexts(talk.parse, talk.render, talk.start, talk.Reads(talk.OpenReads(n))));
             && before <= texts <= all
             && (!end.WriteFailed? ==> texts == all)
             && WsTransport.Receive(Survivors(stream, part), until).texts <= texts)
  {
    hide WsTransport.Receive, Concat, AnswerTexts, Lined, Survivors, Conversation.Ended, Conversation.At;
    hide Conversation.Answers, Conversation.Reads, Conversation.OpenReads;
    AtTheEnd(talk, n, talk.At(n).state, talk.At(n).writes, end);
    AnswersAreResponses(talk, n - 1);
    AnswersAreResponses(talk, n);
    WholeStreamReceived(talk, n, end, until);
    PartReceived(Concat(talk.At(n).writes), part, until);
  }

  lemma PartReceived(stream: seq<byte>, part: nat, until: TransportError)
    ensures WsTransport.Receive(Survivors(stream, part), until).texts <= WsTransport.Receive(stream, until).texts
  {
    hide WsTransport.Receive;
    var first := Survivors(stream, part);
    assert stream == first + stream[|first|..];
    WsTransport.PrefixReceived(first, stream[|first|..], until, until);
  }

  lemma WholeStreamReceived(talk: Conversation, n: nat, end: End, until: TransportError)
    requires talk.kind.WsKind? && talk.Ended(n, talk.At(n).state, talk.At(n).writes, end)
    ensures (var texts := WsTransport.Receive(Concat(talk.At(n).writes), until).texts;
             && talk.Answers(n - 1) <= texts <= talk.Answers(n)
             && (!end.WriteFailed? ==> texts == talk.Answers(n)))
  {
    hide WsTransport.Receive, WsTransport.Before, Concat, Conversation.GoesOn, Conversation.EndOf;
    hide Conversation.Reaches, Conversation.EventAt, Conversation.Replies, Conversation.SendingAt;
    hide Conversation.Given, Conversation.At, Conversation.Answers, Conversation.Next;
    var p := talk.At(n - 1);
    var replies, wrote := talk.Replies(p), talk.SendingAt(p).wrote;
    var last := Concat(replies) + Concat(wrote);
    talk.OneMore(n - 1);
    talk.OneMoreAnswered(n - 1);
    StreamOfTurn(talk, p);
    WsAnswersReceived(talk, n - 1, last, until);
    TextsAfter(talk.Answers(n - 1), WsTransport.Receive(last, until));
    LastTurn(talk, p, until);
  }

  lemma StreamOfTurn(talk: Conversation, p: Position)
    ensures Concat(talk.Next(p).writes)
         == Concat(p.writes) + (Concat(talk.Replies(p)) + Concat(talk.SendingAt(p).wrote))
  {
    hide EventOn, Concat, Conversation.Replies, Conversation.SendingAt, Conversation.EventAt;
    var replies, wrote := talk.Replies(p), talk.SendingAt(p).wrote;
    ConcatThree(p.writes, replies, wrote, []);
    assert Concat(wrote) + [] == Concat(wrote);
    assert Concat(talk.Next(p).writes) + [] == Concat(talk.Next(p).writes);
  }
}
