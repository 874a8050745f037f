/** Newline framing of src/protocol.rs: the byte-at-a-time `FrameReader` and `serialize_response`. */
module Framing {
  import opened Bytes
  import opened Protocol

  const NEWLINE: byte := 10

  // ---- the meaning of a stream: split at newlines --------------------------------------------

  /** What one finished segment is reported as. */
  datatype Report = Frame(bytes: seq<byte>) | TooLarge

  function ReportOf(segment: seq<byte>): Report {
    if |segment| <= MAX_MSG_LEN - 1 then Frame(segment) else TooLarge
  }

  /** Splitting at newlines: the finished segments, and the unfinished tail. */
  function Segments(stream: seq<byte>): seq<seq<byte>> {
    Split(stream, []).0
  }

  function Tail(stream: seq<byte>): seq<byte> {
    Split(stream, []).1
  }

  /** `open` is the segment begun before `stream`. */
  function Split(stream: seq<byte>, open: seq<byte>): (seq<seq<byte>>, seq<byte>) {
    if |stream| == 0 then ([], open)
    else if stream[0] == NEWLINE then
      var rest := Split(stream[1..], []);
      ([open] + rest.0, rest.1)
    else Split(stream[1..], open + [stream[0]])
  }

  /** Joining back: every segment with its newline, then the tail. */
  function Joined(segments: seq<seq<byte>>): seq<byte> {
    if |segments| == 0 then [] else segments[0] + [10] + Joined(segments[1..])
  }

  /** Splitting loses nothing and leaves no newline inside a segment: it is the unique such division. */
  lemma {:induction false} SplitIsFaithful(stream: seq<byte>, open: seq<byte>)
    requires NEWLINE !in open
    ensures var (segments, tail) := Split(stream, open);
            && Joined(segments) + tail == open + stream
            && NEWLINE !in tail
            && forall k | 0 <= k < |segments| :: NEWLINE !in segments[k]
    decreases |stream|
  {
    hide Split, Joined;
    SplitStep(stream, open);
    if |stream| == 0 {
      assert [] + open == open + stream;
      assert Joined([]) == [] by {
        JoinedFirst([], [], []);
      }
    } else if stream[0] == NEWLINE {
      SplitIsFaithful(stream[1..], []);
      var (segments, tail) := Split(stream[1..], []);
      JoinedFirst(open, segments, tail);
      assert stream == [NEWLINE] + stream[1..] && [] + stream[1..] == stream[1..];
      assert open + ([NEWLINE] + stream[1..]) == open + [NEWLINE] + stream[1..];
      assert NEWLINE !in open;
    } else {
      SplitIsFaithful(stream[1..], open + [stream[0]]);
      assert stream == [stream[0]] + stream[1..];
      assert open + [stream[0]] + stream[1..] == open + ([stream[0]] + stream[1..]);
    }
  }

  lemma SplitStep(stream: seq<byte>, open: seq<byte>)
    ensures |stream| == 0 ==> Split(stream, open) == ([], open)
    ensures |stream| > 0 && stream[0] != NEWLINE ==> Split(stream, open) == Split(stream[1..], open + [stream[0]])
    ensures |stream| > 0 && stream[0] == NEWLINE ==>
              Split(stream, open) == ([open] + Split(stream[1..], []).0, Split(stream[1..], []).1)
  {
  }

  lemma JoinedFirst(s: seq<byte>, segments: seq<seq<byte>>, tail: seq<byte>)
    ensures Joined([s] + segments) + tail == s + [NEWLINE] + (Joined(segments) + tail)
    ensures Joined([]) == []
  {
    assert ([s] + segments)[1..] == segments;
  }

  lemma {:induction false} SplitOfJoined(segments: seq<seq<byte>>, tail: seq<byte>)
    requires forall k | 0 <= k < |segments| :: NEWLINE !in segments[k]
    requires NEWLINE !in tail
    ensures Segments(Joined(segments) + tail) == segments && Tail(Joined(segments) + tail) == tail
  {
    if |segments| == 0 {
      SplitPlain(tail, [], []);
      assert Joined(segments) + tail == tail + [] && [] + tail == tail;
    } else {
      var rest := Joined(segments[1..]) + tail;
      SplitOfJoined(segments[1..], tail);
      assert Joined(segments) + tail == segments[0] + ([NEWLINE] + rest);
      SplitPlain(segments[0], [NEWLINE] + rest, []);
      assert ([NEWLINE] + rest)[1..] == rest && [] + segments[0] == segments[0];
    }
  }

  lemma {:induction false} SplitPlain(plain: seq<byte>, rest: seq<byte>, open: seq<byte>)
    requires NEWLINE !in plain
    ensures Split(plain + rest, open) == Split(rest, open + plain)
    decreases |plain|
  {
    if |plain| == 0 {
      assert plain + rest == rest && open + plain == open;
    } else {
      assert (plain + rest)[0] == plain[0] && (plain + rest)[1..] == plain[1..] + rest;
      SplitPlain(plain[1..], rest, open + [plain[0]]);
      assert open + [plain[0]] + plain[1..] == open + plain;
    }
  }

  /** Whatever part of a stream arrives, its segments are the first ones of the whole stream. */
  lemma {:induction false} SplitOfPrefix(stream: seq<byte>, more: seq<byte>, open: seq<byte>)
    ensures Split(stream, open).0 <= Split(stream + more, open).0
    decreases |stream|
  {
    hide Split;
    SplitStep(stream, open);
    SplitStep(stream + more, open);
    if |stream| > 0 {
      var after := OpenAfter(open, stream[0]);
      assert (stream + more)[1..] == stream[1..] + more;
      SplitOfPrefix(stream[1..], more, after);
    }
  }

  // ---- the frame reader ------------------------------------------------------------------------

  datatype Pushed = More | Done(report: Report)

  /** What one byte does when `open` is the segment so far. */
  function PushedBy(open: seq<byte>, b: byte): Pushed {
    if b == NEWLINE then Done(ReportOf(open)) else More
  }

  function OpenAfter(open: seq<byte>, b: byte): seq<byte> {
    if b == NEWLINE then [] else open + [b]
  }

  class FrameReader {
    var buf: array<byte>
    var pos: nat
    var overflowed: bool
    /** Everything pushed since the last newline. */
    ghost var segment: seq<byte>

    ghost predicate Valid()
      reads this, buf
    {
      && buf.Length == MAX_MSG_LEN
      && pos == Min(|segment|, MAX_MSG_LEN - 1)
      && buf[..pos] == segment[..pos]
      && (overflowed <==> |segment| > MAX_MSG_LEN - 1)
      && NEWLINE !in segment
    }

    constructor ()
      ensures Valid() && fresh(buf) && segment == []
    {
      buf := new byte[MAX_MSG_LEN](_ => 0);
      pos, overflowed := 0, false;
      segment := [];
    }

    method Reset()
      requires Valid()
      modifies this
      ensures Valid() && buf == old(buf) && segment == []
    {
      pos, overflowed := 0, false;
      segment := [];
    }

    /** `push`: the report of a byte is that of the segment it ends, whatever segments came before. */
    method Push(b: byte) returns (r: Pushed)
      requires Valid()
      modifies this, buf
      ensures Valid() && buf == old(buf)
      ensures r == PushedBy(old(segment), b)
      ensures segment == OpenAfter(old(segment), b)
    {
      if b == NEWLINE {
        if overflowed {
          Reset();
          return Done(TooLarge);
        }
        var end := pos;
        assert segment[..pos] == segment;
        pos := 0;
        r := Done(Frame(buf[..end]));
        segment := [];
        return;
      }
      segment := segment + [b];
      if pos >= MAX_MSG_LEN - 1 {
        overflowed := true;
        return More;
      }
      buf[pos] := b;
      pos := pos + 1;
      r := More;
    }

    /** Pushing a whole stream reports the segments of the split, in order; the tail stays pending. */
    method PushAll(stream: seq<byte>) returns (reports: seq<Report>)
      requires Valid()
      modifies this, buf
      ensures Valid() && buf == old(buf)
      ensures var (segments, tail) := Split(stream, old(segment));
              reports == Reports(segments) && segment == tail
    {
      hide Split, ReportOf;
      reports := [];
      ghost var goal := Split(stream, segment);
      ghost var done: seq<seq<byte>> := [];
      assert stream[0..] == stream;
      assert [] + goal.0 == goal.0;
      for i := 0 to |stream|
        invariant Valid() && buf == old(buf)
        invariant reports == Reports(done)
        invariant (var rest := Split(stream[i..], segment); goal == (done + rest.0, rest.1))
      {
        assert stream[i..][1..] == stream[i + 1..];
        SplitStep(stream[i..], segment);
        if stream[i] == NEWLINE {
          ReportsAppend(done, segment);
          ghost var rest := Split(stream[i + 1..], []);
          assert done + ([segment] + rest.0) == done + [segment] + rest.0;
          done := done + [segment];
        }
        var r := Push(stream[i]);
        if r.Done? {
          reports := reports + [r.report];
        }
      }
      SplitStep([], segment);
      assert stream[|stream|..] == [];
      assert done + [] == done;
    }
  }

  function Reports(segments: seq<seq<byte>>): (r: seq<Report>)
    ensures |r| == |segments|
  {
    seq(|segments|, k requires 0 <= k < |segments| => ReportOf(segments[k]))
  }

  lemma ReportsAppend(segments: seq<seq<byte>>, s: seq<byte>)
    ensures Reports(segments + [s]) == Reports(segments) + [ReportOf(s)]
  {
  }

  /** The stream "a\nbc\nd" has the segments "a" and "bc", and "d" is pending. */
  lemma KnownSplit()
    ensures Split([97, 10, 98, 99, 10, 100], []) == ([[97], [98, 99]], [100])
  {
    hide Split;
    SplitOfJoined([[97], [98, 99]], [100]);
    var two: seq<seq<byte>> := [[97], [98, 99]];
    assert two[1..] == [[98, 99]] && two[1..][1..] == [];
    assert Joined(two[1..][1..]) == [];
    assert Joined(two) + [100] == [97, 10, 98, 99, 10, 100];
  }

  /** A segment of up to 1023 bytes is reported as it is, a longer one as too large. */
  lemma LineLimit(segments: seq<seq<byte>>, k: nat)
    requires k < |segments|
    ensures Reports(segments)[k] == if |segments[k]| < 1024 then Frame(segments[k]) else TooLarge
  {
  }

  // ---- serialising responses -------------------------------------------------------------------

  /** `serialize_response` once the JSON printer has produced `body`: it fails when body and newline do
      not fit. */
  method SerializeResponse(body: seq<byte>, buf: array<byte>) returns (r: Result<nat, ErrorCode>)
    modifies buf
    ensures r.Ok? <==> |body| < buf.Length
    ensures r.Ok? ==> r.value == |body| + 1 && buf[..r.value] == body + [10]
    ensures r.Err? ==> r.error == MsgTooLarge
  {
    if |body| > buf.Length {
      return Err(MsgTooLarge);
    }
    CopyInto(body, buf, 0);
    if |body| >= buf.Length {
      return Err(MsgTooLarge);
    }
    buf[|body|] := NEWLINE;
    r := Ok(|body| + 1);
  }

  /** Responses written one after the other into `MAX_MSG_LEN` buffers come back whole and in order, nothing
      stays pending, and each is short enough for `parse_command`. */
  lemma ResponsesRecovered(bodies: seq<seq<byte>>)
    requires forall k | 0 <= k < |bodies| :: NEWLINE !in bodies[k]
    requires forall k | 0 <= k < |bodies| :: |bodies[k]| < 1024
    ensures var stream := Joined(bodies);
            && Tail(stream) == []
            && Reports(Segments(stream)) == seq(|bodies|, k requires 0 <= k < |bodies| => Frame(bodies[k]))
            && forall k | 0 <= k < |bodies| :: |Reports(Segments(stream))[k].bytes| <= 1024
  {
    hide Split, Joined;
    SplitOfJoined(bodies, []);
    assert Joined(bodies) + [] == Joined(bodies);
    assert forall k | 0 <= k < |bodies| :: Reports(bodies)[k] == Frame(bodies[k]);
  }
}
