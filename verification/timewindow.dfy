/** The visible time range and its mapping onto the chart's columns.
    Instants are whole seconds of local wall-clock time counted from a local
    midnight, so the hour, minute and second of an instant are read off by
    division; time zones and daylight-saving changes are not modelled. */
module TimeWindow {
  import opened Types
  import Canvas

  const SECONDS_PER_MINUTE := 60
  const SECONDS_PER_HOUR := 3600
  const SECONDS_PER_DAY := 86400
  const HALF_HOUR := 1800
  const HOURS_TO_SHOW := 3
  /** The window's length in seconds. */
  const HORIZON := HOURS_TO_SHOW * SECONDS_PER_HOUR

  const LEFT_MARGIN := 50
  const RIGHT_MARGIN := 40
  /** The columns the window's start and end map to. */
  const CHART_LEFT := LEFT_MARGIN
  const CHART_RIGHT := Canvas.WIDTH - RIGHT_MARGIN

  function Hour(t: int): int { (t % SECONDS_PER_DAY) / SECONDS_PER_HOUR }

  function Minute(t: int): int { (t % SECONDS_PER_HOUR) / SECONDS_PER_MINUTE }

  function Second(t: int): int { t % SECONDS_PER_MINUTE }

  /** The instant t with its minute rounded down to 0 or 30 and its seconds
      cleared; the date and hour are kept. */
  function RoundDownTo30Min(t: int): (r: int)
    ensures r <= t < r + HALF_HOUR
    ensures Second(r) == 0 && (Minute(r) == 0 || Minute(r) == 30)
    ensures r - r % SECONDS_PER_HOUR == t - t % SECONDS_PER_HOUR
  {
    RoundDownFacts(t);
    (t - t % SECONDS_PER_HOUR) + (Minute(t) / 30) * 30 * SECONDS_PER_MINUTE
  }

  lemma RoundDownFacts(t: int)
    ensures var r := (t - t % SECONDS_PER_HOUR) + (Minute(t) / 30) * 30 * SECONDS_PER_MINUTE;
      && r <= t < r + HALF_HOUR
      && Second(r) == 0 && (Minute(r) == 0 || Minute(r) == 30)
      && r - r % SECONDS_PER_HOUR == t - t % SECONDS_PER_HOUR
  {
    var h := t / SECONDS_PER_HOUR;
    var s := t % SECONDS_PER_HOUR;
    var q := Minute(t) / 30;
    assert t == h * SECONDS_PER_HOUR + s && 0 <= s < SECONDS_PER_HOUR;
    assert q == 0 || q == 1;
    assert q == 0 ==> s < HALF_HOUR;
    assert q == 1 ==> HALF_HOUR <= s;
    var r := h * SECONDS_PER_HOUR + q * HALF_HOUR;
    assert r == (t - t % SECONDS_PER_HOUR) + (Minute(t) / 30) * 30 * SECONDS_PER_MINUTE;
    OffsetMod(h, q * HALF_HOUR, SECONDS_PER_HOUR);
    assert r % SECONDS_PER_HOUR == q * HALF_HOUR;
    assert r == (h * 60 + q * 30) * SECONDS_PER_MINUTE;
    MultipleDiv(h * 60 + q * 30, SECONDS_PER_MINUTE);
  }

  /** The rounded instant is a half-hour boundary. */
  lemma RoundDownOnBoundary(t: int)
    ensures RoundDownTo30Min(t) % HALF_HOUR == 0
  {
    var k := (t / SECONDS_PER_HOUR) * 2 + Minute(t) / 30;
    assert RoundDownTo30Min(t) == k * HALF_HOUR;
    MultipleDiv(k, HALF_HOUR);
  }

  /** The rounded instant is the latest half-hour boundary not after t. */
  lemma RoundDownIsLatestBoundary(t: int, b: int)
    requires b % HALF_HOUR == 0 && b <= t
    ensures RoundDownTo30Min(t) % HALF_HOUR == 0
    ensures b <= RoundDownTo30Min(t)
  {
    var r := RoundDownTo30Min(t);
    var k := (t / SECONDS_PER_HOUR) * 2 + Minute(t) / 30;
    assert r == k * HALF_HOUR;
    MultipleDiv(k, HALF_HOUR);
    var kb := b / HALF_HOUR;
    assert b == kb * HALF_HOUR;
    assert kb * HALF_HOUR <= t < (k + 1) * HALF_HOUR;
    MulCancel(kb, k + 1, HALF_HOUR);
    Canvas.MulMono(kb, k, HALF_HOUR);
  }

  /** Rounding an already rounded instant changes nothing. */
  lemma RoundDownIdempotent(t: int)
    ensures RoundDownTo30Min(RoundDownTo30Min(t)) == RoundDownTo30Min(t)
  {
    var r := RoundDownTo30Min(t);
    RoundDownOnBoundary(t);
    RoundDownIsLatestBoundary(r, r);
  }

  /** The visible range: start rounded down from now, end three hours on. */
  datatype Window = Window(start: int, end: int)

  function WindowAt(now: int): (w: Window)
    ensures w.start <= now < w.start + HALF_HOUR
    ensures w.start % HALF_HOUR == 0
    ensures w.end - w.start == HORIZON
  {
    var start := RoundDownTo30Min(now);
    RoundDownOnBoundary(now);
    Window(start, start + HORIZON)
  }

  /** a / b rounded toward zero, as Python's int() truncates a ratio. */
  function TruncDiv(a: int, b: int): int
    requires b > 0
  {
    if a >= 0 then a / b else -((-a) / b)
  }

  lemma DivMonotone(a1: int, a2: int, b: int)
    requires 0 <= a1 <= a2 && b > 0
    ensures a1 / b <= a2 / b
  {
    var q1, q2 := a1 / b, a2 / b;
    assert q1 * b <= a1 && a2 < q2 * b + b;
    assert (q2 + 1) * b == q2 * b + b;
    MulCancel(q1, q2 + 1, b);
  }

  lemma MulCancel(x: int, y: int, b: int)
    requires b > 0 && x * b < y * b
    ensures x < y
  {
  }

  /** A multiple of d divides back exactly. */
  lemma MultipleDiv(k: int, d: int)
    requires d > 0
    ensures (k * d) / d == k && (k * d) % d == 0
  {
    var q, r := (k * d) / d, (k * d) % d;
    assert (k - q) * d == r;
    assert 0 * d <= (k - q) * d < 1 * d;
    MulCancel(k - q, 1, d);
    MulCancel(-1, k - q, d);
  }

  /** An offset x into block k of width d is the remainder. */
  lemma OffsetMod(k: int, x: int, d: int)
    requires d > 0 && 0 <= x < d
    ensures (k * d + x) % d == x
  {
    var q, r := (k * d + x) / d, (k * d + x) % d;
    assert (k - q) * d == r - x;
    assert -1 * d < (k - q) * d < 1 * d;
    MulCancel(k - q, 1, d);
    MulCancel(-1, k - q, d);
  }

  lemma DivNonNegative(a: int, b: int)
    requires a >= 0 && b > 0
    ensures a / b >= 0
  {
    DivMonotone(0, a, b);
  }

  lemma TruncDivMonotone(a1: int, a2: int, b: int)
    requires a1 <= a2 && b > 0
    ensures TruncDiv(a1, b) <= TruncDiv(a2, b)
  {
    if a1 >= 0 {
      DivMonotone(a1, a2, b);
    } else if a2 < 0 {
      DivMonotone(-a2, -a1, b);
    } else {
      DivNonNegative(-a1, b);
      DivNonNegative(a2, b);
    }
  }

  /** The column of instant t on the chart whose left edge is `start` and
      right edge `end`: the elapsed fraction of the window scaled onto
      [CHART_LEFT, CHART_RIGHT], truncated toward zero. */
  function TimeToX(t: int, start: int, end: int): (x: int)
    requires start < end
    ensures t == start ==> x == CHART_LEFT
    ensures t == end ==> x == CHART_RIGHT
    ensures start <= t <= end ==> CHART_LEFT <= x <= CHART_RIGHT
  {
    var total := end - start;
    var elapsed := t - start;
    TimeToXBounds(elapsed, total);
    TruncDiv(CHART_LEFT * total + elapsed * (CHART_RIGHT - CHART_LEFT), total)
  }

  lemma TimeToXBounds(elapsed: int, total: int)
    requires total > 0
    ensures 0 <= elapsed <= total ==>
      CHART_LEFT <= TruncDiv(CHART_LEFT * total + elapsed * (CHART_RIGHT - CHART_LEFT), total) <= CHART_RIGHT
    ensures elapsed == 0 ==> TruncDiv(CHART_LEFT * total + elapsed * (CHART_RIGHT - CHART_LEFT), total) == CHART_LEFT
    ensures elapsed == total ==> TruncDiv(CHART_LEFT * total + elapsed * (CHART_RIGHT - CHART_LEFT), total) == CHART_RIGHT
  {
    var a := CHART_LEFT * total + elapsed * (CHART_RIGHT - CHART_LEFT);
    MultipleDiv(CHART_LEFT, total);
    MultipleDiv(CHART_RIGHT, total);
    assert CHART_LEFT * total == total * CHART_LEFT;
    assert CHART_RIGHT * total == total * CHART_RIGHT;
    if 0 <= elapsed <= total {
      Canvas.MulMono(elapsed, total, CHART_RIGHT - CHART_LEFT);
      assert CHART_LEFT * total <= a <= CHART_RIGHT * total;
      DivMonotone(CHART_LEFT * total, a, total);
      DivMonotone(a, CHART_RIGHT * total, total);
    }
  }

  /** Later instants never map to columns further left. */
  lemma TimeToXMonotone(t1: int, t2: int, start: int, end: int)
    requires start < end && t1 <= t2
    ensures TimeToX(t1, start, end) <= TimeToX(t2, start, end)
  {
    var total := end - start;
    assert (t1 - start) * (CHART_RIGHT - CHART_LEFT) <= (t2 - start) * (CHART_RIGHT - CHART_LEFT);
    TruncDivMonotone(CHART_LEFT * total + (t1 - start) * (CHART_RIGHT - CHART_LEFT),
                     CHART_LEFT * total + (t2 - start) * (CHART_RIGHT - CHART_LEFT), total);
  }

  /** The hour on a 12-hour clock, 12 in place of 0. */
  function Hour12(t: int): int
  {
    if Hour(t) % 12 == 0 then 12 else Hour(t) % 12
  }

  function Digit(d: int): char
    requires 0 <= d <= 9
  {
    ('0' as int + d) as char
  }

  predicate IsDigit(c: char) { '0' <= c <= '9' }

  function DigitValue(c: char): int
    requires IsDigit(c)
  {
    c as int - '0' as int
  }

  /** An axis or bar time label: the 12-hour hour without a leading zero, a
      colon and the two-digit minute, no am/pm. */
  function FormatTimeLabel(t: int): (s: string)
    ensures |s| == 4 || |s| == 5
    ensures s[|s| - 3] == ':'
    // no leading zero: the hour takes one digit exactly when it is below 10
    ensures |s| == 4 <==> Hour12(t) < 10
  {
    var h := Hour12(t);
    var m := Minute(t);
    var hour := if h < 10 then [Digit(h)] else [Digit(h / 10), Digit(h % 10)];
    hour + [':', Digit(m / 10), Digit(m % 10)]
  }

  /** Reads a label back as (hour, minute). */
  function ParseTimeLabel(s: string): Option<(int, int)>
  {
    if |s| < 4 || |s| > 5 || s[|s| - 3] != ':' then None
    else if !(forall i :: 0 <= i < |s| && i != |s| - 3 ==> IsDigit(s[i])) then None
    else
      var n := |s|;
      var minute := DigitValue(s[n - 2]) * 10 + DigitValue(s[n - 1]);
      var hour := if n == 4 then DigitValue(s[0]) else DigitValue(s[0]) * 10 + DigitValue(s[1]);
      Some((hour, minute))
  }

  /** A label gives back the hour on the 12-hour clock and the minute it was
      made from. */
  lemma TimeLabelRoundTrip(t: int)
    ensures ParseTimeLabel(FormatTimeLabel(t)) == Some((Hour12(t), Minute(t)))
  {
    var s := FormatTimeLabel(t);
    var h := Hour12(t);
    var m := Minute(t);
    assert 1 <= h <= 12 && 0 <= m < 60;
    assert forall i :: 0 <= i < |s| && i != |s| - 3 ==> IsDigit(s[i]);
    assert DigitValue(s[|s| - 2]) * 10 + DigitValue(s[|s| - 1]) == m;
  }
}
