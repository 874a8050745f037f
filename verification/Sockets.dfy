/** The TCP socket as a byte stream with arbitrary read sizes. What `abort` leaves of the bytes already received is
    up to the network stack, whose source is not part of this model: any number of them may still be readable. That
    nothing can be written on an aborted socket is assumed. */
module Sockets {
  import opened Bytes
  import opened Protocol

  /** One step of the connection: some bytes arrive, the 30 s read timeout fires, or the peer is gone
      (a read error, or a read of zero bytes). */
  datatype ReadEvent = Data(bytes: seq<byte>) | TimedOut | Gone

  predicate Delivers(e: ReadEvent) {
    e.Data? && |e.bytes| > 0
  }

  /** The bytes that can still be read before the stream ends. */
  function Stream(script: seq<ReadEvent>): seq<byte> {
    if |script| > 0 && Delivers(script[0]) then script[0].bytes + Stream(script[1..]) else []
  }

  /** How the stream ends. */
  function Ending(script: seq<ReadEvent>): (e: TransportError)
    ensures !e.ProtocolError?
  {
    if |script| > 0 && Delivers(script[0]) then Ending(script[1..])
    else if |script| > 0 && script[0].TimedOut? then Timeout
    else Disconnected
  }

  /** The script after `n` bytes of the first delivery have been taken. */
  function After(script: seq<ReadEvent>, n: nat): seq<ReadEvent>
    requires |script| > 0 && Delivers(script[0]) && 0 < n <= |script[0].bytes|
  {
    var chunk := script[0].bytes;
    if n < |chunk| then [Data(chunk[n..])] + script[1..] else script[1..]
  }

  lemma FirstDelivery(chunk: seq<byte>, rest: seq<ReadEvent>)
    requires |chunk| > 0
    ensures Stream([Data(chunk)] + rest) == chunk + Stream(rest) && Ending([Data(chunk)] + rest) == Ending(rest)
  {
    assert ([Data(chunk)] + rest)[1..] == rest;
  }

  lemma Consume(script: seq<ReadEvent>, n: nat)
    requires |script| > 0 && Delivers(script[0]) && 0 < n <= |script[0].bytes|
    ensures n <= |Stream(script)| && Stream(script)[..n] == script[0].bytes[..n]
    ensures Stream(After(script, n)) == Stream(script)[n..]
    ensures Ending(After(script, n)) == Ending(script)
  {
    hide Stream, Ending;
    var chunk, rest := script[0].bytes, script[1..];
    assert script == [Data(chunk)] + rest;
    FirstDelivery(chunk, rest);
    if n < |chunk| {
      FirstDelivery(chunk[n..], rest);
    }
  }

  lemma NothingMore()
    ensures Stream([]) == [] && Ending([]) == Disconnected
  {
  }

  /** The script that delivers the first `n` bytes of another and then disconnects. */
  function Remaining(script: seq<ReadEvent>, n: nat): (r: seq<ReadEvent>)
    ensures Stream(r) == Survivors(Stream(script), n) && Ending(r) == Disconnected
  {
    var kept := Survivors(Stream(script), n);
    assert [Data(kept)] + [] == [Data(kept)];
    if |kept| == 0 then []
    else
      FirstDelivery(kept, []);
      NothingMore();
      [Data(kept)]
  }

  /** What an abort leaves readable. */
  function Survivors(bytes: seq<byte>, n: nat): (s: seq<byte>)
    ensures |s| <= |bytes|
  {
    bytes[..Min(n, |bytes|)]
  }

  // ---- scripted results of writes ----------------------------------------------------------------

  /** Whether the i-th coming write succeeds; those after the script all do. */
  predicate WriteOk(results: seq<bool>, i: nat) {
    i < |results| ==> results[i]
  }

  /** The script after `n` writes. */
  function Later(results: seq<bool>, n: nat): seq<bool> {
    if n <= |results| then results[n..] else []
  }

  lemma LaterWrites(results: seq<bool>, m: nat, n: nat)
    ensures Later(Later(results, m), n) == Later(results, m + n)
    ensures WriteOk(Later(results, m), n) <==> WriteOk(results, m + n)
    ensures Later(results, 0) == results
  {
  }

  predicate AllSent(packets: seq<seq<byte>>, results: seq<bool>) {
    forall k | 0 <= k < |packets| :: WriteOk(results, k)
  }

  /** Writing packets until the first failure, which is still attempted. */
  function Attempted(packets: seq<seq<byte>>, results: seq<bool>): (a: seq<seq<byte>>)
    ensures a <= packets && (AllSent(packets, results) ==> a == packets)
  {
    if |packets| == 0 then []
    else if !WriteOk(results, 0) then [packets[0]]
    else
      LaterWrites(results, 1, 0);
      assert forall k | 0 <= k < |packets| - 1 :: WriteOk(Later(results, 1), k) <==> WriteOk(results, k + 1);
      [packets[0]] + Attempted(packets[1..], Later(results, 1))
  }

  /** What can be read after an operation that may have aborted the connection. */
  predicate Left(bytes: seq<byte>, end: TransportError, oldBytes: seq<byte>, oldEnd: TransportError, aborts: bool,
                 surviving: nat)
  {
    && bytes == (if aborts then Survivors(oldBytes, surviving) else oldBytes)
    && end == (if aborts then Disconnected else oldEnd)
  }

  datatype ReadOutcome = Got(n: nat) | Failed(error: TransportError)

  class Socket {
    var script: seq<ReadEvent>
    var aborted: bool
    /** The data of every write on the open connection, in order. */
    var written: seq<seq<byte>>
    /** The results of the coming writes; all later ones succeed. */
    var writeResults: seq<bool>
    /** How many received bytes an abort leaves readable. */
    const surviving: nat

    constructor (script: seq<ReadEvent>, writeResults: seq<bool>, surviving: nat)
      ensures this.script == script && this.writeResults == writeResults && this.surviving == surviving
      ensures !aborted && written == []
    {
      this.script, this.writeResults, this.surviving, aborted, written := script, writeResults, surviving, false, [];
    }

    function Pending(): seq<byte>
      reads this`script
    {
      Stream(script)
    }

    function End(): (e: TransportError)
      reads this`script
      ensures !e.ProtocolError?
    {
      Ending(script)
    }

    /** `socket.read(&mut buf[lo..hi])` under the read timeout: at least one byte, at most what is asked. */
    method Read(buf: array<byte>, lo: nat, hi: nat) returns (r: ReadOutcome)
      requires lo < hi <= buf.Length
      modifies this`script, buf
      ensures r.Got? ==> 0 < r.n <= hi - lo && r.n <= |old(Pending())|
                         && buf[..lo + r.n] == old(buf[..lo]) + old(Pending())[..r.n]
                         && Pending() == old(Pending())[r.n..] && End() == old(End())
      ensures r.Failed? ==> buf[..] == old(buf[..]) && old(Pending()) == [] && r.error == old(End())
                            && Pending() == [] && End() == old(End())
    {
      if |script| == 0 || !Delivers(script[0]) {
        return Failed(if |script| > 0 && script[0].TimedOut? then Timeout else Disconnected);
      }
      var chunk := script[0].bytes;
      var n := Min(|chunk|, hi - lo);
      CopyInto(chunk[..n], buf, lo);
      Consume(script, n);
      script := After(script, n);
      r := Got(n);
    }

    /** `write_all`. */
    method WriteAll(data: seq<byte>) returns (ok: bool)
      modifies this`written, this`writeResults
      ensures aborted ==> !ok && written == old(written) && writeResults == old(writeResults)
      ensures !aborted ==> written == old(written) + [data]
                           && ok == WriteOk(old(writeResults), 0) && writeResults == Later(old(writeResults), 1)
    {
      if aborted {
        return false;
      }
      written := written + [data];
      ok := WriteOk(writeResults, 0);
      writeResults := Later(writeResults, 1);
    }

    method Abort()
      modifies this`script, this`aborted
      ensures aborted
      ensures Left(Pending(), End(), old(Pending()), old(End()), !old(aborted), surviving)
    {
      if !aborted {
        aborted := true;
        script := Remaining(script, surviving);
      }
    }
  }
}
