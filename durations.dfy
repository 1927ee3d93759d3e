/**
 * Go's `time.Duration` as a count of nanoseconds, the saturating
 * `time.Sub`/`time.Since`, and `formatDuration`, which renders a duration
 * as a compact "XdYhZmWs" string.
 */
module Durations {
  import opened Wrappers
  import opened Decimal

  const Second: int := 1_000_000_000
  const Minute: int := 60 * Second

  /** A value of Go's int64 `time.Duration`. */
  predicate IsDuration(d: int) {
    MinInt64 <= d <= MaxInt64
  }

  /**
   * `t.Sub(u)` on two instants given in nanoseconds: the difference, or the
   * nearest bound of the duration range when the difference overflows it.
   */
  function Sub(t: int, u: int): (d: int)
    ensures IsDuration(d)
    ensures IsDuration(t - u) ==> d == t - u
    ensures t - u > MaxInt64 ==> d == MaxInt64
    ensures t - u < MinInt64 ==> d == MinInt64
  {
    if t - u > MaxInt64 then MaxInt64
    else if t - u < MinInt64 then MinInt64
    else t - u
  }

  /** `time.Since(u)` with the clock reading passed in as `now`. */
  function Since(now: int, u: int): (d: int)
    ensures IsDuration(d)
    ensures u <= now ==> d >= 0
  {
    Sub(now, u)
  }

  /** Seconds from Go's internal epoch, 1 January of year 1, to the Unix epoch. */
  const UnixToInternal: int := 62_135_596_800

  /**
   * `time.Since(time.Unix(sec, 0))`. `time.Unix` stores `sec + UnixToInternal`
   * as an int64, and that sum wraps: past the top of the range the instant
   * reads as earlier than every clock reading, so `Sub` gives the largest
   * duration; past the bottom it reads as later, giving the smallest.
   * Otherwise the instant is `sec` seconds after the Unix epoch.
   */
  function SinceUnix(now: int, sec: int): (d: int)
    ensures IsDuration(d)
    ensures sec + UnixToInternal > MaxInt64 ==> d == MaxInt64
    ensures sec + UnixToInternal < MinInt64 ==> d == MinInt64
    ensures IsDuration(sec + UnixToInternal) ==> d == Since(now, sec * 1_000_000_000)
    ensures (sec + UnixToInternal > MaxInt64 ||
             (MinInt64 <= sec + UnixToInternal && sec * 1_000_000_000 <= now)) ==> d >= 0
  {
    if sec + UnixToInternal > MaxInt64 then MaxInt64
    else if sec + UnixToInternal < MinInt64 then MinInt64
    else Since(now, sec * 1_000_000_000)
  }

  /** The whole seconds `formatDuration` prints: negative durations count as zero. */
  function WholeSeconds(d: int): (secs: nat)
    ensures d < Second ==> secs == 0
    ensures d >= 0 ==> secs * 1_000_000_000 <= d < secs * 1_000_000_000 + 1_000_000_000
  {
    if d < 0 then 0 else d / 1_000_000_000
  }

  /** Whole seconds split into days, hours, minutes and seconds. */
  datatype Clock = Clock(days: nat, hours: nat, mins: nat, secs: nat)

  function Total(c: Clock): nat {
    c.days * 86400 + c.hours * 3600 + c.mins * 60 + c.secs
  }

  predicate InRange(c: Clock) {
    c.hours < 24 && c.mins < 60 && c.secs < 60
  }

  /** The breakdown of `total` seconds: every component in range, and they add back up. */
  function Breakdown(total: nat): (c: Clock)
    ensures InRange(c) && Total(c) == total
  {
    var rest := total % 86400;
    Clock(total / 86400, rest / 3600, rest % 3600 / 60, rest % 3600 % 60)
  }

  /** There is only one in-range breakdown of a number of seconds. */
  lemma BreakdownUnique(c: Clock)
    requires InRange(c)
    ensures Breakdown(Total(c)) == c
  {
    var rest := c.hours * 3600 + c.mins * 60 + c.secs;
    assert Total(c) / 86400 == c.days && Total(c) % 86400 == rest;
    assert rest / 3600 == c.hours && rest % 3600 == c.mins * 60 + c.secs;
    assert (c.mins * 60 + c.secs) / 60 == c.mins;
  }

  /** One piece of the rendered duration, such as `3h`. */
  datatype Part = Part(value: nat, unit: char)

  /** The four unit letters. */
  predicate IsUnit(u: char) {
    u == 'd' || u == 'h' || u == 'm' || u == 's'
  }

  /** `n` of the given unit, in seconds. */
  function Scale(n: nat, u: char): nat {
    match u
    case 'd' => n * 86400
    case 'h' => n * 3600
    case 'm' => n * 60
    case _ => n
  }

  /**
   * The pieces `formatDuration` emits: each non-zero component with its unit,
   * largest first, and `0s` when every component is zero.
   */
  function Parts(c: Clock): seq<Part> {
    var ps := (if c.days > 0 then [Part(c.days, 'd')] else [])
      + (if c.hours > 0 then [Part(c.hours, 'h')] else [])
      + (if c.mins > 0 then [Part(c.mins, 'm')] else []);
    if c.secs > 0 || ps == [] then ps + [Part(c.secs, 's')] else ps
  }

  function RenderPart(p: Part): string {
    Itoa(p.value) + [p.unit]
  }

  /** `strings.Join(parts, "")` over the rendered pieces. */
  function Render(ps: seq<Part>): string {
    if ps == [] then "" else RenderPart(ps[0]) + Render(ps[1..])
  }

  /** What `formatDuration(d)` returns. */
  function Formatted(d: int): string {
    Render(Parts(Breakdown(WholeSeconds(d))))
  }

  /** `formatDuration`: clamps, takes whole seconds, peels off each unit with `%=` and appends the non-zero pieces. */
  method FormatDuration(d: int) returns (s: string)
    ensures s == Formatted(d)
  {
    var dd := d;
    if dd < 0 {
      dd := 0;
    }
    var secs := dd / 1_000_000_000;
    ghost var total := secs;
    assert total == WholeSeconds(d);
    var days := secs / 86400;
    secs := secs % 86400;
    var hours := secs / 3600;
    secs := secs % 3600;
    var mins := secs / 60;
    secs := secs % 60;

    var parts: seq<Part> := [];
    if days > 0 {
      parts := parts + [Part(days, 'd')];
    }
    if hours > 0 {
      parts := parts + [Part(hours, 'h')];
    }
    if mins > 0 {
      parts := parts + [Part(mins, 'm')];
    }
    if secs > 0 || |parts| == 0 {
      parts := parts + [Part(secs, 's')];
    }
    ghost var c := Clock(days, hours, mins, secs);
    assert c == Breakdown(total);
    assert parts == Parts(c);
    s := Render(parts);
  }

  // ---------------------------------------------------------------------
  // Reading a rendered duration back.

  /** The length of the leading run of digits. */
  function DigitRun(s: string): (k: nat)
    ensures k <= |s| && AllDigits(s[..k])
    ensures k < |s| ==> !IsDigit(s[k])
  {
    if s == [] || !IsDigit(s[0]) then 0
    else
      var k := 1 + DigitRun(s[1..]);
      assert s[..k] == [s[0]] + s[1..][..k - 1];
      k
  }

  /** Reads text of the form `<digits><unit>…` back into a number of seconds. */
  function ParseCompact(s: string): (r: Option<nat>)
    decreases |s|
  {
    if s == [] then Some(0)
    else
      var k := DigitRun(s);
      if k == 0 || k == |s| || !IsUnit(s[k]) then None
      else
        match ParseCompact(s[k + 1..])
        case None => None
        case Some(rest) => Some(Scale(ParseDigits(s[..k]), s[k]) + rest)
  }

  function Sum(ps: seq<Part>): nat {
    if ps == [] then 0 else Scale(ps[0].value, ps[0].unit) + Sum(ps[1..])
  }

  lemma {:induction false} ParseRender(ps: seq<Part>)
    requires forall i :: 0 <= i < |ps| ==> IsUnit(ps[i].unit)
    ensures ParseCompact(Render(ps)) == Some(Sum(ps))
  {
    if ps != [] {
      ParseRender(ps[1..]);
      ParseFirst(ps);
    }
  }

  /** The first piece's step of `ParseRender`, given the rest's reading. */
  lemma ParseFirst(ps: seq<Part>)
    requires ps != [] && IsUnit(ps[0].unit)
    requires ParseCompact(Render(ps[1..])) == Some(Sum(ps[1..]))
    ensures ParseCompact(Render(ps)) == Some(Sum(ps))
  {
    var tail, n := Render(ps[1..]), Sum(ps[1..]);
    assert Render(ps) == RenderPart(ps[0]) + tail;
    assert Sum(ps) == Scale(ps[0].value, ps[0].unit) + n;
    ParseStep(ps[0], tail, n);
  }

  /** One rendered piece in front of more text reads back as its value in seconds. */
  lemma ParseStep(p: Part, tail: string, n: nat)
    requires IsUnit(p.unit) && ParseCompact(tail) == Some(n)
    ensures ParseCompact(RenderPart(p) + tail) == Some(Scale(p.value, p.unit) + n)
  {
    var digits := Itoa(p.value);
    var s := RenderPart(p) + tail;
    assert s == digits + ([p.unit] + tail);
    DigitRunStops(digits, [p.unit] + tail);
    assert s[..|digits|] == digits;
    assert s[|digits| + 1..] == tail;
  }

  lemma DigitRunStops(digits: string, rest: string)
    requires AllDigits(digits) && rest != [] && !IsDigit(rest[0])
    ensures DigitRun(digits + rest) == |digits|
    decreases |digits|
  {
    if digits != [] {
      assert (digits + rest)[1..] == digits[1..] + rest;
      DigitRunStops(digits[1..], rest);
    } else {
      assert digits + rest == rest;
    }
  }

  lemma SumParts(c: Clock)
    ensures Sum(Parts(c)) == Total(c)
  {
    var d := if c.days > 0 then [Part(c.days, 'd')] else [];
    var h := if c.hours > 0 then [Part(c.hours, 'h')] else [];
    var m := if c.mins > 0 then [Part(c.mins, 'm')] else [];
    var ps := d + h + m;
    var last := if c.secs > 0 || ps == [] then [Part(c.secs, 's')] else [];
    assert Parts(c) == ps + last;
    assert Sum(d) == c.days * 86400 by { SumSingle(Part(c.days, 'd')); }
    assert Sum(h) == c.hours * 3600 by { SumSingle(Part(c.hours, 'h')); }
    assert Sum(m) == c.mins * 60 by { SumSingle(Part(c.mins, 'm')); }
    assert Sum(last) == c.secs by { SumSingle(Part(c.secs, 's')); }
    assert Sum(d + h) == Sum(d) + Sum(h) by { SumAppend(d, h); }
    assert Sum(ps) == Sum(d + h) + Sum(m) by { SumAppend(d + h, m); }
    assert Sum(ps + last) == Sum(ps) + Sum(last) by { SumAppend(ps, last); }
  }

  lemma SumSingle(p: Part)
    ensures Sum([p]) == Scale(p.value, p.unit)
  {
    assert [p][1..] == [];
  }

  lemma {:induction false} SumAppend(a: seq<Part>, b: seq<Part>)
    ensures Sum(a + b) == Sum(a) + Sum(b)
  {
    if a != [] {
      assert (a + b)[1..] == a[1..] + b;
      SumAppend(a[1..], b);
    } else {
      assert a + b == b;
    }
  }

  /** The rendered text reads back as the duration's whole seconds. */
  lemma FormattedRoundTrip(d: int)
    ensures ParseCompact(Formatted(d)) == Some(WholeSeconds(d))
  {
    var c := Breakdown(WholeSeconds(d));
    PartsCanonical(c);
    ParseRender(Parts(c));
    SumParts(c);
  }

  /** Negative durations and durations under a second print as `0s`. */
  lemma FormattedZero(d: int)
    requires d < Second
    ensures Formatted(d) == "0s"
  {
    assert WholeSeconds(d) == 0;
    BreakdownUnique(Clock(0, 0, 0, 0));
    ZeroRendered();
  }

  lemma ZeroRendered()
    ensures Render(Parts(Clock(0, 0, 0, 0))) == "0s"
  {
    assert Parts(Clock(0, 0, 0, 0)) == [Part(0, 's')];
  }

  /**
   * The pieces come in d, h, m, s order, each unit at most once, and only
   * the lone `0s` piece carries a zero.
   */
  lemma PartsCanonical(c: Clock)
    ensures |Parts(c)| >= 1
    ensures forall i, j :: 0 <= i < j < |Parts(c)| ==>
      IndexOf(Parts(c)[i].unit) < IndexOf(Parts(c)[j].unit)
    ensures forall i :: 0 <= i < |Parts(c)| ==> IsUnit(Parts(c)[i].unit)
    ensures forall i :: 0 <= i < |Parts(c)| ==> Parts(c)[i].value > 0 || Parts(c) == [Part(0, 's')]
    ensures Parts(c) == [Part(0, 's')] <==> Total(c) == 0
  {
    var ps := Parts(c);
    if c.days > 0 {
      assert ps[0] == Part(c.days, 'd');
    } else if c.hours > 0 {
      assert ps[0] == Part(c.hours, 'h');
    } else if c.mins > 0 {
      assert ps[0] == Part(c.mins, 'm');
    }
  }

  /** The position of a unit in d, h, m, s order. */
  function IndexOf(u: char): nat {
    match u
    case 'd' => 0
    case 'h' => 1
    case 'm' => 2
    case _ => 3
  }

  /** Each piece is the in-range component for its unit. */
  lemma PartsAreComponents(c: Clock, i: nat)
    requires i < |Parts(c)|
    ensures Parts(c)[i].unit == 'd' ==> Parts(c)[i].value == c.days
    ensures Parts(c)[i].unit == 'h' ==> Parts(c)[i].value == c.hours
    ensures Parts(c)[i].unit == 'm' ==> Parts(c)[i].value == c.mins
    ensures Parts(c)[i].unit == 's' ==> Parts(c)[i].value == c.secs
  {
  }
}
