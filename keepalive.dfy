/**
 * `keepaliveLoop`: every 30 seconds it decides whether to keep pinging the
 * Fly proxy, which keeps the machine awake, or to stop for good so the
 * machine may be suspended. It remembers the last idle time it saw and an
 * inferred client session.
 */
module Keepalive {
  import opened Wrappers
  import opened Decimal
  import opened Durations
  import opened Handshakes

  /** `startupWindow`: 2 minutes, in nanoseconds. */
  const StartupWindow: int := 120_000_000_000
  /** `maxIdle`: 5 minutes, in nanoseconds. */
  const MaxIdle: int := 300_000_000_000
  /** `interval`: the sleep before every tick, 30 seconds in nanoseconds. */
  const Interval: int := 30_000_000_000

  datatype Decision = Ping | Stop

  /** The loop's variables `lastIdle`, `connected` and `connectedSince` (an instant in nanoseconds). */
  datatype Tracker = Tracker(lastIdle: int, connected: bool, connectedSince: int)

  /** `lastIdle` starts at -1, `connected` false and `connectedSince` at the zero time. */
  const Initial: Tracker := Tracker(-1, false, 0)

  datatype Outcome = Outcome(decision: Decision, next: Tracker)

  /**
   * One tick, given the time elapsed since the loop started, the poll's
   * result and the clock. The poll is consulted only after the startup window.
   */
  function Step(t: Tracker, elapsed: int, poll: Poll, now: int): Outcome {
    if elapsed <= StartupWindow then Outcome(Ping, t)
    else
      match poll
      case PollError => Outcome(Ping, t)
      case Never => Outcome(Stop, t)
      case Idle(idle) =>
        var seen := t.(lastIdle := idle);
        if idle > MaxIdle then Outcome(Stop, seen)
        else if !seen.connected then Outcome(Ping, seen.(connected := true, connectedSince := now))
        else Outcome(Ping, seen)
  }

  /** The loop ends exactly on "never handshaken" or an idle time over the limit, after the startup window. */
  lemma StopExactly(t: Tracker, elapsed: int, poll: Poll, now: int)
    ensures Step(t, elapsed, poll, now).decision == Stop <==>
      elapsed > StartupWindow && (poll == Never || (poll.Idle? && poll.idle > MaxIdle))
  {
  }

  /**
   * Whether the tick pings depends on nothing the loop remembers: neither
   * the previous idle time (a decrease is only logged) nor the session.
   */
  lemma DecisionIgnoresTracker(t: Tracker, u: Tracker, elapsed: int, poll: Poll, now: int)
    ensures Step(t, elapsed, poll, now).decision == Step(u, elapsed, poll, now).decision
  {
  }

  /** Inside the startup window the tick pings and changes nothing, whatever a poll would say. */
  lemma StartupWindowPings(t: Tracker, elapsed: int, poll: Poll, now: int)
    requires elapsed <= StartupWindow
    ensures Step(t, elapsed, poll, now) == Outcome(Ping, t)
  {
  }

  /** A failed poll is treated as activity: the tick pings and changes nothing. */
  lemma PollErrorPings(t: Tracker, elapsed: int, now: int)
    ensures Step(t, elapsed, PollError, now) == Outcome(Ping, t)
  {
  }

  /**
   * After a successful poll `lastIdle` holds the new idle time; when the
   * loop goes on, the session is marked connected and its start is set
   * only if it was not connected before.
   */
  lemma IdleUpdates(t: Tracker, elapsed: int, idle: int, now: int)
    requires elapsed > StartupWindow
    ensures Step(t, elapsed, Idle(idle), now).next.lastIdle == idle
    ensures Step(t, elapsed, Idle(idle), now).decision == Ping ==>
      && Step(t, elapsed, Idle(idle), now).next.connected
      && Step(t, elapsed, Idle(idle), now).next.connectedSince == (if t.connected then t.connectedSince else now)
  {
  }

  /** A tick never ends a session it has inferred. */
  lemma ConnectedStays(t: Tracker, elapsed: int, poll: Poll, now: int)
    requires t.connected
    ensures Step(t, elapsed, poll, now).next.connected
    ensures Step(t, elapsed, poll, now).next.connectedSince == t.connectedSince
  {
  }

  /**
   * A latest handshake so far ahead that `time.Unix` wraps reads as the
   * largest idle time, so past the startup window the tick ends the loop.
   */
  lemma WrappedStampStops(t: Tracker, elapsed: int, text: string, now: int)
    requires elapsed > StartupWindow
    requires MaxStamp(OutputLines(text)) > MaxInt64 - UnixToInternal
    ensures PollOf(Some(text), now) == Idle(MaxInt64)
    ensures Step(t, elapsed, PollOf(Some(text), now), now) == Outcome(Stop, t.(lastIdle := MaxInt64))
  {
  }

  /** One tick's input: the clock after the sleep, `wg`'s output (None when it failed) and whether the ping got through. */
  datatype TickInput = TickInput(now: int, wgOut: Option<string>, pingOk: bool)

  /** Pings sent, whether the loop ended, and the loop's variables afterwards. */
  datatype RunResult = RunResult(pings: nat, stopped: bool, final: Tracker)

  /** What the loop does over a sequence of ticks, stopping at the first Stop. */
  function RunSpec(t: Tracker, start: int, ticks: seq<TickInput>): RunResult
    decreases |ticks|
  {
    if ticks == [] then RunResult(0, false, t)
    else
      var now := ticks[0].now;
      var o := Step(t, Since(now, start), PollOf(ticks[0].wgOut, now), now);
      if o.decision == Stop then RunResult(0, true, o.next)
      else
        var r := RunSpec(o.next, start, ticks[1..]);
        RunResult(r.pings + 1, r.stopped, r.final)
  }

  /** The same ticks with the pings' outcomes replaced. */
  predicate SameButPings(a: seq<TickInput>, b: seq<TickInput>) {
    |a| == |b| && forall k :: 0 <= k < |a| ==> a[k].now == b[k].now && a[k].wgOut == b[k].wgOut
  }

  /** Failed pings never change what the loop does. */
  lemma {:induction false} PingFailuresIgnored(t: Tracker, start: int, a: seq<TickInput>, b: seq<TickInput>)
    requires SameButPings(a, b)
    ensures RunSpec(t, start, a) == RunSpec(t, start, b)
    decreases |a|
  {
    if a != [] {
      var o := Step(t, Since(a[0].now, start), PollOf(a[0].wgOut, a[0].now), a[0].now);
      PingFailuresIgnored(o.next, start, a[1..], b[1..]);
    }
  }

  /** Once a session is inferred, it lasts and keeps its start for the rest of the run. */
  lemma {:induction false} SessionKept(t: Tracker, start: int, ticks: seq<TickInput>)
    requires t.connected
    ensures RunSpec(t, start, ticks).final.connected
    ensures RunSpec(t, start, ticks).final.connectedSince == t.connectedSince
    decreases |ticks|
  {
    if ticks != [] {
      var now := ticks[0].now;
      var poll := PollOf(ticks[0].wgOut, now);
      ConnectedStays(t, Since(now, start), poll, now);
      SessionKept(Step(t, Since(now, start), poll, now).next, start, ticks[1..]);
    }
  }

  /** A tick past the startup window whose poll reports the given idle time. */
  predicate PollsIdle(start: int, tick: TickInput, idle: int) {
    Since(tick.now, start) > StartupWindow && PollOf(tick.wgOut, tick.now) == Idle(idle)
  }

  /**
   * Past the startup window, with idle times within the limit on ticks
   * 1..n-1 and over it on tick n, the loop pings n-1 times and ends on
   * tick n.
   */
  lemma {:induction false} StopsOnFirstIdleOverLimit(t: Tracker, start: int, ticks: seq<TickInput>, idles: seq<int>, n: nat)
    requires 1 <= n <= |ticks| && |idles| == |ticks|
    requires forall k :: 0 <= k < n ==> PollsIdle(start, ticks[k], idles[k])
    requires forall k :: 0 <= k < n - 1 ==> idles[k] <= MaxIdle
    requires idles[n - 1] > MaxIdle
    ensures RunSpec(t, start, ticks).pings == n - 1
    ensures RunSpec(t, start, ticks).stopped
    ensures RunSpec(t, start, ticks).final.lastIdle == idles[n - 1]
    decreases n
  {
    var o := FirstTickIdle(t, start, ticks, idles[0]);
    if n > 1 {
      forall k | 0 <= k < n - 1
        ensures PollsIdle(start, ticks[1..][k], idles[1..][k])
      {
        assert PollsIdle(start, ticks[k + 1], idles[k + 1]);
      }
      StopsOnFirstIdleOverLimit(o.next, start, ticks[1..], idles[1..], n - 1);
    }
  }

  /** How the run continues from a first tick that polled an idle time. */
  lemma FirstTickIdle(t: Tracker, start: int, ticks: seq<TickInput>, idle: int) returns (o: Outcome)
    requires ticks != [] && PollsIdle(start, ticks[0], idle)
    ensures o.next.lastIdle == idle
    ensures idle > MaxIdle ==> RunSpec(t, start, ticks) == RunResult(0, true, o.next)
    ensures idle <= MaxIdle ==>
      var r := RunSpec(o.next, start, ticks[1..]);
      RunSpec(t, start, ticks) == RunResult(r.pings + 1, r.stopped, r.final)
  {
    var now := ticks[0].now;
    o := Step(t, Since(now, start), Idle(idle), now);
  }

  /** A poll reporting no handshake ever ends the loop on that tick, without a ping. */
  lemma StopsOnNever(t: Tracker, start: int, ticks: seq<TickInput>)
    requires ticks != [] && Since(ticks[0].now, start) > StartupWindow
    requires PollOf(ticks[0].wgOut, ticks[0].now) == Never
    ensures RunSpec(t, start, ticks) == RunResult(0, true, t)
  {
  }

  /** The loop's variables; `start` is the instant the loop began. */
  class Monitor {
    const start: int
    var lastIdle: int
    var connected: bool
    var connectedSince: int

    function State(): Tracker
      reads this
    {
      Tracker(lastIdle, connected, connectedSince)
    }

    constructor (start: int)
      ensures this.start == start && State() == Initial
    {
      this.start := start;
      lastIdle := -1;
      connected := false;
      connectedSince := 0;
    }

    /** One iteration of the loop body after the sleep: polls only past the startup window. */
    method Tick(now: int, wgOut: Option<string>) returns (d: Decision)
      modifies this
      ensures Outcome(d, State()) == Step(old(State()), Since(now, start), PollOf(wgOut, now), now)
    {
      if Since(now, start) <= StartupWindow {
        return Ping;
      }
      var poll := WireGuardIdle(wgOut, now);
      if poll.PollError? {
        return Ping;
      }
      if poll.Never? {
        return Stop;
      }
      var idle := poll.idle;
      lastIdle := idle;
      if idle > MaxIdle {
        return Stop;
      }
      if !connected {
        connected := true;
        connectedSince := now;
      }
      return Ping;
    }

    /** The loop over the given ticks: it ends at the first Stop; a failed ping only skips to the next tick. */
    method Run(ticks: seq<TickInput>) returns (pings: nat, stopped: bool)
      modifies this
      ensures RunResult(pings, stopped, State()) == RunSpec(old(State()), start, ticks)
    {
      pings := 0;
      stopped := false;
      var i := 0;
      while i < |ticks|
        invariant 0 <= i <= |ticks|
        invariant RunSpec(old(State()), start, ticks) ==
          var r := RunSpec(State(), start, ticks[i..]);
          RunResult(pings + r.pings, r.stopped, r.final)
      {
        var tick := ticks[i];
        assert ticks[i..][1..] == ticks[i + 1..];
        var d := Tick(tick.now, tick.wgOut);
        if d == Stop {
          stopped := true;
          return;
        }
        pings := pings + 1;
        if !tick.pingOk {
          i := i + 1;
          continue;
        }
        i := i + 1;
      }
    }
  }
}
