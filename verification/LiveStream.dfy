/** The periodic live stream (`live_stream.cpp`): bursts of a fixed number of images, started
    at most once in a period. */
module LiveStream {
  import opened Arith

  /** The variables the closure captures. */
  datatype State = State(count: nat, nextTime: int)

  /** One call of the closure for an image that arrives at time `now`; `burst` and `period` are
      fixed.  The counter is incremented even when the comparison fails. */
  function Call(burst: nat, period: int, s: State, now: int): (State, bool) {
    var counted := if s.count > 0 then s.count + 1 else 0;
    if s.count > 0 && s.count < burst then (State(counted, s.nextTime), true)
    else if now > s.nextTime then (State(1, now + period), true)
    else (State(0, s.nextTime), false)
  }

  class PeriodicCondition {
    const burst: nat
    const period: int
    var count: nat
    var nextTime: int

    constructor (burst: nat, period: int, now: int)
      ensures this.burst == burst && this.period == period && count == 0 && nextTime == now + period
    {
      this.burst, this.period, count, nextTime := burst, period, 0, now + period;
    }

    method ShouldSend(now: int) returns (send: bool)
      modifies this
      ensures (State(count, nextTime), send) == Call(burst, period, old(State(count, nextTime)), now)
    {
      if count > 0 {
        count := count + 1;
        if count - 1 < burst { return true; }
      }
      if now > nextTime {
        count := 1;
        nextTime := now + period;
        return true;
      } else {
        count := 0;
      }
      return false;
    }
  }

  // ---- Runs ----

  /** After some calls: the state, which images were sent, and which of them started a burst. */
  datatype Run = Run(s: State, sent: seq<bool>, starts: seq<nat>)

  function RunOf(burst: nat, period: int, t0: int, times: seq<int>): (r: Run)
    ensures |r.sent| == |times|
  {
    if times == [] then Run(State(0, t0 + period), [], [])
    else
      var n := |times| - 1;
      var r := RunOf(burst, period, t0, times[..n]);
      var (s', send) := Call(burst, period, r.s, times[n]);
      var starting := send && !(r.s.count > 0 && r.s.count < burst);
      Run(s', r.sent + [send], if starting then r.starts + [n] else r.starts)
  }

  /** Start `j` is an image that has come, more than a period after the start before it (or
      after `t0`), and behind the burst before it. */
  predicate SpacedAt(burst: nat, period: int, t0: int, times: seq<int>, starts: seq<nat>, j: nat)
    requires j < |starts|
  {
    && starts[j] < |times|
    && (j == 0 ==> times[starts[j]] > t0 + period)
    && (j > 0 ==> starts[j - 1] + burst <= starts[j] && starts[j - 1] < |times|
                  && times[starts[j]] > times[starts[j - 1]] + period)
  }

  ghost predicate Spaced(burst: nat, period: int, t0: int, times: seq<int>, starts: seq<nat>) {
    forall j: nat :: j < |starts| ==> SpacedAt(burst, period, t0, times, starts, j)
  }

  predicate InBurst(burst: nat, start: nat, i: nat) {
    start <= i < start + burst
  }

  /** Exactly the images of the bursts have been sent: `burst` consecutive ones from each start. */
  ghost predicate SentAre(burst: nat, sent: seq<bool>, starts: seq<nat>) {
    forall i :: 0 <= i < |sent| ==> (sent[i] <==> exists j :: 0 <= j < |starts| && InBurst(burst, starts[j], i))
  }

  /** The counter says how far the last burst has come. */
  ghost predicate Progress(burst: nat, period: int, t0: int, times: seq<int>, r: Run) {
    && (r.starts == [] ==> r.s == State(0, t0 + period))
    && (r.starts != [] ==>
          var b := r.starts[|r.starts| - 1];
          && b < |times| && r.s.nextTime == times[b] + period
          && (r.s.count > 0 ==> r.s.count == |times| - b <= burst)
          && (r.s.count == 0 ==> b + burst <= |times|))
  }

  ghost predicate Inv(burst: nat, period: int, t0: int, times: seq<int>, r: Run) {
    && |r.sent| == |times|
    && Spaced(burst, period, t0, times, r.starts)
    && SentAre(burst, r.sent, r.starts)
    && Progress(burst, period, t0, times, r)
    && Total(r.sent) == ExpectedTotal(burst, |times|, r.starts)
  }

  /** All bursts but the last one are complete. */
  function ExpectedTotal(burst: nat, n: nat, starts: seq<nat>): int {
    if starts == [] then 0 else Repeated(burst, |starts| - 1) + Min(burst, n - starts[|starts| - 1])
  }

  function Repeated(burst: nat, k: nat): nat {
    if k == 0 then 0 else burst + Repeated(burst, k - 1)
  }

  function Total(sent: seq<bool>): nat {
    if sent == [] then 0 else Total(sent[..|sent| - 1]) + (if sent[|sent| - 1] then 1 else 0)
  }

  // ---- One call ----

  lemma TotalStep(sent: seq<bool>, send: bool)
    ensures Total(sent + [send]) == Total(sent) + (if send then 1 else 0)
  {
    assert (sent + [send])[..|sent|] == sent;
  }

  lemma SpacedStays(burst: nat, period: int, t0: int, times: seq<int>, t: int, starts: seq<nat>)
    requires Spaced(burst, period, t0, times, starts)
    ensures Spaced(burst, period, t0, times + [t], starts)
  {
    forall j: nat | j < |starts|
      ensures SpacedAt(burst, period, t0, times + [t], starts, j)
    {
      assert SpacedAt(burst, period, t0, times, starts, j);
    }
  }

  lemma SpacedMore(burst: nat, period: int, t0: int, times: seq<int>, t: int, starts: seq<nat>)
    requires Spaced(burst, period, t0, times, starts)
    requires starts == [] ==> t > t0 + period
    requires starts != [] ==> var b := starts[|starts| - 1];
               b < |times| && t > times[b] + period && b + burst <= |times|
    ensures Spaced(burst, period, t0, times + [t], starts + [|times|])
  {
    var more := starts + [|times|];
    forall j: nat | j < |more|
      ensures SpacedAt(burst, period, t0, times + [t], more, j)
    {
      if j < |starts| { assert SpacedAt(burst, period, t0, times, starts, j); }
    }
  }

  /** The last burst is the only one that can still concern the next image. */
  lemma NextInBurst(burst: nat, period: int, t0: int, times: seq<int>, starts: seq<nat>, j: nat)
    requires Spaced(burst, period, t0, times, starts) && j < |starts|
    ensures starts[j] < |times|
    ensures InBurst(burst, starts[j], |times|) ==> j == |starts| - 1
  {
    assert SpacedAt(burst, period, t0, times, starts, j);
    if j < |starts| - 1 { assert SpacedAt(burst, period, t0, times, starts, j + 1); }
  }

  /** An image of the current burst, or one that is not sent. */
  lemma SentStays(burst: nat, period: int, t0: int, times: seq<int>, sent: seq<bool>, starts: seq<nat>, send: bool)
    requires |sent| == |times| && Spaced(burst, period, t0, times, starts) && SentAre(burst, sent, starts)
    requires send <==> starts != [] && InBurst(burst, starts[|starts| - 1], |times|)
    ensures SentAre(burst, sent + [send], starts)
  {
    var all := sent + [send];
    forall i | 0 <= i < |all|
      ensures all[i] <==> exists j :: 0 <= j < |starts| && InBurst(burst, starts[j], i)
    {
      if i == |sent| {
        if j :| 0 <= j < |starts| && InBurst(burst, starts[j], i) { NextInBurst(burst, period, t0, times, starts, j); }
      } else {
        assert all[i] == sent[i];
      }
    }
  }

  /** The first image of a burst. */
  lemma SentMore(burst: nat, times: seq<int>, sent: seq<bool>, starts: seq<nat>)
    requires burst >= 1 && |sent| == |times| && SentAre(burst, sent, starts)
    ensures SentAre(burst, sent + [true], starts + [|times|])
  {
    var all, more := sent + [true], starts + [|times|];
    assert more[|starts|] == |times| && forall j :: 0 <= j < |starts| ==> more[j] == starts[j];
    forall i | 0 <= i < |all|
      ensures all[i] <==> exists j :: 0 <= j < |more| && InBurst(burst, more[j], i)
    {
      if i == |sent| {
        assert InBurst(burst, more[|starts|], i);
      } else {
        assert all[i] == sent[i];
        if j :| 0 <= j < |starts| && InBurst(burst, starts[j], i) { assert InBurst(burst, more[j], i); }
      }
    }
  }

  lemma RunStep(burst: nat, period: int, t0: int, times: seq<int>, t: int)
    ensures var (r, r') := (RunOf(burst, period, t0, times), RunOf(burst, period, t0, times + [t]));
            var (s', send) := Call(burst, period, r.s, t);
            r' == Run(s', r.sent + [send],
                      if send && !(r.s.count > 0 && r.s.count < burst) then r.starts + [|times|] else r.starts)
  {
    assert (times + [t])[..|times|] == times;
  }

  /** A burst goes on. */
  lemma GoesOn(burst: nat, period: int, t0: int, times: seq<int>, t: int, r: Run)
    requires burst >= 1 && Inv(burst, period, t0, times, r) && 0 < r.s.count < burst
    ensures Inv(burst, period, t0, times + [t], Run(State(r.s.count + 1, r.s.nextTime), r.sent + [true], r.starts))
  {
    TotalStep(r.sent, true);
    SpacedStays(burst, period, t0, times, t, r.starts);
    SentStays(burst, period, t0, times, r.sent, r.starts, true);
  }

  /** A burst starts. */
  lemma Starts(burst: nat, period: int, t0: int, times: seq<int>, t: int, r: Run)
    requires burst >= 1 && Inv(burst, period, t0, times, r) && (r.s.count == 0 || r.s.count >= burst)
    requires t > r.s.nextTime
    ensures Inv(burst, period, t0, times + [t], Run(State(1, t + period), r.sent + [true], r.starts + [|times|]))
  {
    TotalStep(r.sent, true);
    SpacedMore(burst, period, t0, times, t, r.starts);
    SentMore(burst, times, r.sent, r.starts);
    assert r.starts != [] ==> Repeated(burst, |r.starts|) == burst + Repeated(burst, |r.starts| - 1);
  }

  /** An image is not sent. */
  lemma Skips(burst: nat, period: int, t0: int, times: seq<int>, t: int, r: Run)
    requires burst >= 1 && Inv(burst, period, t0, times, r) && (r.s.count == 0 || r.s.count >= burst)
    ensures Inv(burst, period, t0, times + [t], Run(State(0, r.s.nextTime), r.sent + [false], r.starts))
  {
    TotalStep(r.sent, false);
    SpacedStays(burst, period, t0, times, t, r.starts);
    SentStays(burst, period, t0, times, r.sent, r.starts, false);
  }

  lemma CallKeeps(burst: nat, period: int, t0: int, times: seq<int>, t: int)
    requires burst >= 1 && Inv(burst, period, t0, times, RunOf(burst, period, t0, times))
    ensures Inv(burst, period, t0, times + [t], RunOf(burst, period, t0, times + [t]))
  {
    var r := RunOf(burst, period, t0, times);
    RunStep(burst, period, t0, times, t);
    if 0 < r.s.count < burst {
      GoesOn(burst, period, t0, times, t, r);
    } else if t > r.s.nextTime {
      Starts(burst, period, t0, times, t, r);
    } else {
      Skips(burst, period, t0, times, t, r);
    }
  }

  lemma {:induction false} RunKeeps(burst: nat, period: int, t0: int, times: seq<int>)
    requires burst >= 1
    ensures Inv(burst, period, t0, times, RunOf(burst, period, t0, times))
  {
    if times != [] {
      var n := |times| - 1;
      RunKeeps(burst, period, t0, times[..n]);
      assert times == times[..n] + [times[n]];
      CallKeeps(burst, period, t0, times[..n], times[n]);
    }
  }

  /** What has been decided for an image does not depend on later ones. */
  lemma {:induction false} SentBy(burst: nat, period: int, t0: int, times: seq<int>, i: nat)
    requires i < |times|
    ensures RunOf(burst, period, t0, times).sent[i]
            == Call(burst, period, RunOf(burst, period, t0, times[..i]).s, times[i]).1
    decreases |times|
  {
    var n := |times| - 1;
    if i < n {
      SentBy(burst, period, t0, times[..n], i);
      assert times[..n][..i] == times[..i];
    }
  }

  /** An image is sent if and only if the burst before it is not finished or it comes more than
      a period after the start of that burst, or after `t0` if there has been none. */
  lemma SentExactly(burst: nat, period: int, t0: int, times: seq<int>, i: nat)
    requires burst >= 1 && i < |times|
    ensures var starts := RunOf(burst, period, t0, times[..i]).starts;
            && (starts != [] ==> starts[|starts| - 1] < i)
            && (RunOf(burst, period, t0, times).sent[i] <==>
                  if starts == [] then times[i] > t0 + period
                  else
                    var b := starts[|starts| - 1];
                    InBurst(burst, b, i) || times[i] > times[b] + period)
  {
    SentBy(burst, period, t0, times, i);
    RunKeeps(burst, period, t0, times[..i]);
  }

  // ---- The rate ----

  lemma {:induction false} RepeatedIs(burst: nat, k: nat)
    ensures Repeated(burst, k) == burst * k
  {
    if k > 0 {
      RepeatedIs(burst, k - 1);
      assert burst * k == burst * (k - 1) + burst;
    }
  }

  lemma {:induction false} StartsLate(burst: nat, period: nat, t0: int, times: seq<int>, starts: seq<nat>, j: nat)
    requires Spaced(burst, period, t0, times, starts) && j < |starts|
    ensures starts[j] < |times| && times[starts[j]] > t0 + Repeated(period, j + 1)
  {
    assert SpacedAt(burst, period, t0, times, starts, j);
    if j > 0 { StartsLate(burst, period, t0, times, starts, j - 1); }
  }

  lemma FloorAtLeast(k: nat, x: int, period: int)
    requires period >= 1 && k * period <= x
    ensures k <= x / period
  {
    var q := x / period;
    assert x == q * period + x % period;
    assert q < k ==> (q + 1) * period <= k * period;
  }

  lemma BurstsByTime(burst: nat, period: nat, t0: int, times: seq<int>, starts: seq<nat>, t: int)
    requires period >= 1 && t >= t0 && Spaced(burst, period, t0, times, starts)
    requires forall i :: 0 <= i < |times| ==> times[i] <= t
    ensures |starts| <= (t - t0) / period
  {
    var k := |starts|;
    RepeatedIs(period, k);
    if k > 0 { StartsLate(burst, period, t0, times, starts, k - 1); }
    FloorAtLeast(k, t - t0, period);
  }

  /** The images sent form bursts of `burst` consecutive images, of which only the last may
      be unfinished, started more than a period apart; so by time `t` at most
      `burst * floor((t - t0) / period)` images have been sent. */
  lemma RateIsBounded(burst: nat, period: nat, t0: int, times: seq<int>, t: int)
    requires burst >= 1 && period >= 1 && t >= t0 && forall i :: 0 <= i < |times| ==> times[i] <= t
    ensures var r := RunOf(burst, period, t0, times);
            && Spaced(burst, period, t0, times, r.starts)
            && SentAre(burst, r.sent, r.starts)
            && Total(r.sent) <= burst * ((t - t0) / period)
  {
    RunKeeps(burst, period, t0, times);
    var r := RunOf(burst, period, t0, times);
    BurstsByTime(burst, period, t0, times, r.starts, t);
    RepeatedIs(burst, |r.starts|);
    MulMonotone(|r.starts|, (t - t0) / period, burst);
    assert r.starts != [] ==> Repeated(burst, |r.starts|) == burst + Repeated(burst, |r.starts| - 1);
  }
}
