/** The accept loops of `tcp_server` and `ws_server` in src/net.rs: exponential backoff and the permanent error
    state after ten minutes offline. */
module Reconnect {
  import opened Bytes

  const MAX_RECONNECT_SECS := 600

  /** `backoff_duration` in seconds. */
  function Backoff(attempt: nat): nat {
    if attempt == 0 then 5 else if attempt == 1 then 10 else if attempt == 2 then 20
    else if attempt == 3 then 40 else 60
  }

  function SaturatingAddU16(a: nat, b: nat): nat {
    Min(a + b, 65535)
  }

  function SaturatingAddU8(a: nat, b: nat): nat {
    Min(a + b, 255)
  }

  /** The failures since the last success. */
  function FailureRun(outcomes: seq<bool>): (n: nat)
    ensures n <= |outcomes|
  {
    if |outcomes| == 0 || outcomes[|outcomes| - 1] then 0 else 1 + FailureRun(outcomes[..|outcomes| - 1])
  }

  /** A run of failures is what it says: that many failures at the end, preceded by a success or nothing. */
  lemma {:induction false} FailureRunMeans(outcomes: seq<bool>)
    ensures var n := FailureRun(outcomes);
            && (forall k | |outcomes| - n <= k < |outcomes| :: !outcomes[k])
            && (n < |outcomes| ==> outcomes[|outcomes| - n - 1])
  {
    if |outcomes| > 0 && !outcomes[|outcomes| - 1] {
      FailureRunMeans(outcomes[..|outcomes| - 1]);
    }
  }

  /** The backoff times of the first `n` failures of a run, added up. */
  function OfflineAfter(n: nat): nat {
    if n == 0 then 0 else OfflineAfter(n - 1) + Backoff(n - 1)
  }

  lemma {:induction false} OfflineGrows(m: nat, n: nat)
    requires m <= n
    ensures OfflineAfter(m) <= OfflineAfter(n)
  {
    if m < n {
      OfflineGrows(m, n - 1);
    }
  }

  /** 12 failures add up to 555 seconds, the 13th passes the limit. */
  lemma Totals()
    ensures OfflineAfter(12) == 555 && OfflineAfter(13) == 615
  {
    assert OfflineAfter(4) == 75;
    assert OfflineAfter(8) == 315 by {
      assert OfflineAfter(6) == 195;
    }
    assert OfflineAfter(10) == 435;
  }

  lemma LimitReachedIff(n: nat)
    ensures OfflineAfter(n) >= 600 <==> n >= 13
  {
    hide OfflineAfter;
    Totals();
    if n >= 13 {
      OfflineGrows(13, n);
    } else {
      OfflineGrows(n, 12);
    }
  }

  /** How a run of the accept loop stands: the times slept since the last success, one by one and added up. */
  datatype Stand = Stand(error: bool, at: nat, waits: seq<nat>, waited: nat)

  /** Some prefix ends in 13 failures in a row. */
  predicate ThirteenInARow(outcomes: seq<bool>, k: nat)
    requires k <= |outcomes|
  {
    FailureRun(outcomes[..k]) >= 13
  }

  /** 5, 10, 20 and 40 seconds, and then a minute each. */
  predicate BacksOff(waits: seq<nat>) {
    forall k | 0 <= k < |waits| :: waits[k] == if k < 4 then [5, 10, 20, 40][k] else 60
  }

  lemma NextWait(waits: seq<nat>)
    requires BacksOff(waits)
    ensures BacksOff(waits + [Backoff(|waits|)])
  {
  }

  /** The accept loop over a sequence of accept outcomes (true is a client served). It enters the permanent error
      state exactly at the first 13th failure in a row, after twelve waits of 555 s together; until then a success
      resets everything and every failure is followed by its wait. Neither counter ever saturates. */
  method Serve(outcomes: seq<bool>) returns (s: Stand)
    ensures s.at <= |outcomes| && BacksOff(s.waits)
    ensures s.error ==> ThirteenInARow(outcomes, s.at) && FailureRun(outcomes[..s.at]) == 13
                        && |s.waits| == 12 && s.waited == 555
    ensures s.error ==> forall k | 0 <= k < s.at :: !ThirteenInARow(outcomes, k)
    ensures !s.error ==> s.at == |outcomes| && (forall k | 0 <= k <= |outcomes| :: !ThirteenInARow(outcomes, k))
                         && |s.waits| == FailureRun(outcomes) && s.waited == OfflineAfter(|s.waits|)
  {
    hide Backoff, BacksOff;
    var reconnectAttempt, totalOfflineSecs := 0, 0;
    var waits: seq<nat>, waited: nat := [], 0;
    Totals();
    assert outcomes[..0] == [];
    assert BacksOff(waits) by {
      NoWaits();
    }
    for i := 0 to |outcomes|
      invariant forall k | 0 <= k <= i :: !ThirteenInARow(outcomes, k)
      invariant reconnectAttempt == FailureRun(outcomes[..i]) == |waits| < 13
      invariant totalOfflineSecs == waited == OfflineAfter(reconnectAttempt) <= 555
      invariant BacksOff(waits)
    {
      assert outcomes[..i + 1][..i] == outcomes[..i];
      if outcomes[i] {
        reconnectAttempt, totalOfflineSecs, waits, waited := 0, 0, [], 0;
        NoWaits();
      } else {
        var secs := Backoff(reconnectAttempt);
        LimitReachedIff(reconnectAttempt + 1);
        assert OfflineAfter(reconnectAttempt + 1) == totalOfflineSecs + secs;
        BackoffBound(reconnectAttempt);
        totalOfflineSecs := SaturatingAddU16(totalOfflineSecs, secs);
        if totalOfflineSecs >= MAX_RECONNECT_SECS {
          return Stand(true, i + 1, waits, waited);
        }
        NextWait(waits);
        waits, waited := waits + [secs], waited + secs;
        reconnectAttempt := SaturatingAddU8(reconnectAttempt, 1);
        OfflineGrows(reconnectAttempt, 12);
      }
    }
    assert outcomes[..|outcomes|] == outcomes;
    s := Stand(false, |outcomes|, waits, waited);
  }

  lemma NoWaits()
    ensures BacksOff([])
  {
  }

  lemma BackoffBound(attempt: nat)
    ensures Backoff(attempt) <= 60
  {
  }
}
