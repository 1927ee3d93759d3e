/**
 * `getWireGuardIdleDuration`: reads the text `wg show <iface>
 * latest-handshakes` prints (one `<peer key> <unix seconds>` line per
 * peer), takes the most recent handshake and turns it into an idle time.
 */
module Handshakes {
  import opened Wrappers
  import opened GoStrings
  import opened Decimal
  import opened Durations

  /** What one poll of the interface reports. */
  datatype Poll =
    | PollError        // running `wg` failed
    | Never            // no peer has ever completed a handshake
    | Idle(idle: int)  // time since the most recent handshake, in nanoseconds

  /**
   * The timestamp on one output line: present only when the line has exactly
   * two fields and the second parses as a decimal int64.
   */
  function Stamp(line: string): (ts: Option<int>)
    ensures ts.Some? ==> MinInt64 <= ts.value <= MaxInt64
    ensures ts.Some? ==> |Fields(line)| == 2
  {
    var fields := Fields(line);
    if |fields| != 2 then None else ParseInt64(fields[1])
  }

  /** The lines of the output, after trimming surrounding white space. */
  function OutputLines(out: string): seq<string> {
    Split(TrimSpace(out), '\n')
  }

  /** The timestamp of every line, in order. */
  function Stamps(lines: seq<string>): (ts: seq<Option<int>>)
    ensures |ts| == |lines|
  {
    seq(|lines|, i requires 0 <= i < |lines| => Stamp(lines[i]))
  }

  /** The running maximum over the timestamps present, starting from 0. */
  function MaxOf(ts: seq<Option<int>>): int
    decreases |ts|
  {
    if ts == [] then 0
    else
      var m := MaxOf(ts[..|ts| - 1]);
      match ts[|ts| - 1]
      case Some(t) => if t > m then t else m
      case None => m
  }

  /** The latest handshake over all lines. */
  function MaxStamp(lines: seq<string>): int {
    MaxOf(Stamps(lines))
  }

  /**
   * The latest handshake: no timestamp exceeds it, it is never negative,
   * and unless it is 0 some line carries it.
   */
  predicate IsLatest(ts: seq<Option<int>>, last: int) {
    && last >= 0
    && (forall i :: 0 <= i < |ts| && ts[i].Some? ==> ts[i].value <= last)
    && (last == 0 || Some(last) in ts)
  }

  lemma {:induction false} MaxOfIsLatest(ts: seq<Option<int>>)
    ensures IsLatest(ts, MaxOf(ts))
    decreases |ts|
  {
    if ts != [] {
      var init := ts[..|ts| - 1];
      MaxOfIsLatest(init);
      assert ts == init + [ts[|ts| - 1]];
    }
  }

  /** Only one value can be the latest handshake. */
  lemma LatestUnique(ts: seq<Option<int>>, a: int, b: int)
    requires IsLatest(ts, a) && IsLatest(ts, b)
    ensures a == b
  {
  }

  /** A line without a timestamp does not move the maximum. */
  lemma MalformedIgnored(lines: seq<string>, line: string)
    requires Stamp(line).None?
    ensures MaxStamp(lines + [line]) == MaxStamp(lines)
  {
    assert Stamps(lines + [line])[..|lines|] == Stamps(lines);
  }

  /** "Never handshaken" holds exactly when no line carries a positive timestamp. */
  lemma NeverIffNoPositive(lines: seq<string>)
    ensures MaxStamp(lines) == 0 <==>
      forall i :: 0 <= i < |lines| && Stamp(lines[i]).Some? ==> Stamp(lines[i]).value <= 0
  {
    var ts := Stamps(lines);
    MaxOfIsLatest(ts);
    forall i | 0 <= i < |lines|
      ensures Stamp(lines[i]) == ts[i]
    {
    }
    if MaxStamp(lines) != 0 {
      var i :| 0 <= i < |ts| && ts[i] == Some(MaxStamp(lines));
      assert Stamp(lines[i]) == ts[i];
    }
  }

  /** A `<key><white space><digits>` line, as `wg` prints it, carries the number. */
  lemma WellFormedLine(key: string, gap: string, n: nat)
    requires key != [] && gap != [] && n <= MaxInt64
    requires forall i :: 0 <= i < |key| ==> !IsSpace(key[i])
    requires forall i :: 0 <= i < |gap| ==> IsSpace(gap[i])
    ensures Stamp(key + gap + Itoa(n)) == Some(n)
  {
    var digits := Itoa(n);
    forall i | 0 <= i < |digits|
      ensures !IsSpace(digits[i])
    {
      assert IsDigit(digits[i]);
    }
    FieldsOfPair(key, gap, digits);
    ParseFormatted(n);
  }

  /** The loop over the lines keeping the running maximum `lastHandshake`. */
  method LatestHandshake(lines: seq<string>) returns (last: int)
    ensures last == MaxStamp(lines)
    ensures IsLatest(Stamps(lines), last)
  {
    last := 0;
    var i := 0;
    while i < |lines|
      invariant 0 <= i <= |lines|
      invariant last == MaxOf(Stamps(lines)[..i])
    {
      var line := lines[i];
      var fields := Fields(line);
      assert Stamps(lines)[..i + 1][..i] == Stamps(lines)[..i];
      if |fields| != 2 {
        i := i + 1;
        continue;
      }
      var ts := ParseInt64(fields[1]);
      if ts.None? {
        i := i + 1;
        continue;
      }
      if ts.value > last {
        last := ts.value;
      }
      i := i + 1;
    }
    assert Stamps(lines)[..i] == Stamps(lines);
    MaxOfIsLatest(Stamps(lines));
  }

  /** What one poll reports, given `wg`'s output (None when it failed) and the clock. */
  function PollOf(out: Option<string>, now: int): Poll {
    match out
    case None => PollError
    case Some(text) =>
      var last := MaxStamp(OutputLines(text));
      if last == 0 then Never else Idle(SinceUnix(now, last))
  }

  /** `getWireGuardIdleDuration` after the command has run. */
  method WireGuardIdle(out: Option<string>, now: int) returns (p: Poll)
    ensures p == PollOf(out, now)
    ensures p.PollError? <==> out.None?
    ensures p.Idle? ==> IsDuration(p.idle)
  {
    if out.None? {
      return PollError;
    }
    var lines := Split(TrimSpace(out.value), '\n');
    var last := LatestHandshake(lines);
    if last == 0 {
      return Never;
    }
    return Idle(SinceUnix(now, last));
  }

  /**
   * A successful poll reports Never exactly when no line has a positive
   * timestamp, and otherwise the time since the latest one.
   */
  lemma PollOutcomes(text: string, now: int)
    ensures PollOf(Some(text), now) == Never <==>
      forall i :: 0 <= i < |OutputLines(text)| && Stamp(OutputLines(text)[i]).Some? ==>
        Stamp(OutputLines(text)[i]).value <= 0
    ensures PollOf(Some(text), now).Idle? ==>
      exists i :: 0 <= i < |OutputLines(text)| &&
        Stamp(OutputLines(text)[i]) == Some(MaxStamp(OutputLines(text))) &&
        PollOf(Some(text), now).idle == SinceUnix(now, MaxStamp(OutputLines(text)))
    ensures PollOf(Some(text), now).Idle? && MaxStamp(OutputLines(text)) > MaxInt64 - UnixToInternal ==>
      PollOf(Some(text), now).idle == MaxInt64
  {
    NeverIffNoPositive(OutputLines(text));
    MaxOfIsLatest(Stamps(OutputLines(text)));
  }
}
