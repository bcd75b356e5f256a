/** Where one train's row goes: its vertical band, the horizontal extent of
    each segment's bar, the checkerboard buffers around the block of bars,
    the time labels above the bars (with the greedy rule that drops labels
    crowding the previous one), the station codes and the train's name. */
module Layout {
  import opened Types
  import opened Canvas
  import opened Font
  import opened Text
  import opened TimeWindow
  import opened Schedule

  const TOP_MARGIN := 0
  const BOTTOM_MARGIN := 40
  /** The bottom edge of the chart, where the time axis is drawn. */
  const CHART_BOTTOM := HEIGHT - BOTTOM_MARGIN
  /** A bar holds one scale-1 line of codes, a 2-pixel gap, one scale-2 line
      of name and 4 pixels of padding. */
  const BAR_HEIGHT := CHAR_HEIGHT + 2 + CHAR_HEIGHT * FONT_SCALE + 4

  /** The chart's height shared equally by n rows, rounded down. */
  function RowHeight(n: int): (h: int)
    requires n > 0
    ensures h >= 0 && n * h <= CHART_BOTTOM - TOP_MARGIN < n * (h + 1)
  {
    (CHART_BOTTOM - TOP_MARGIN) / n
  }

  /** The vertical centre of row i. */
  function RowCenter(i: int, rowHeight: int): int
  {
    TOP_MARGIN + i * rowHeight + rowHeight / 2
  }

  /** Every row's centre lies inside the chart. */
  lemma RowCentersInChart(n: int, i: int)
    requires n > 0 && 0 <= i < n
    ensures TOP_MARGIN <= RowCenter(i, RowHeight(n)) < CHART_BOTTOM
  {
    var h := RowHeight(n);
    MulMono(0, i, h);
    MulMono(i, n - 1, h);
    assert (n - 1) * h + h == n * h;
    assert i * h + h <= CHART_BOTTOM - TOP_MARGIN;
  }

  function BarTop(yCenter: int): int { yCenter - BAR_HEIGHT / 2 }

  function BarBottom(yCenter: int): int { yCenter + BAR_HEIGHT / 2 }

  /** A segment's bar: its columns and the times it was placed from. */
  datatype Placed = Placed(x1: int, x2: int, dep: int, arr: int, seg: Segment)

  /** The segment's bar, or None when the segment lies wholly outside the
      window. A bar whose arrival reaches the window's end runs to the
      canvas's right edge. */
  function PlaceSegment(ts: TimedSegment, w: Window): (p: Option<Placed>)
    requires w.start < w.end
    ensures p.None? <==> ts.arr <= w.start || ts.dep >= w.end
    ensures p.Some? ==> p.value.dep == ts.dep && p.value.arr == ts.arr && p.value.seg == ts.seg
    ensures p.Some? ==> CHART_LEFT <= p.value.x1 <= CHART_RIGHT
    // an end inside the window sits at its own column; only an end outside it is clipped
    ensures p.Some? && ts.dep <= w.start ==> p.value.x1 == CHART_LEFT
    ensures p.Some? && w.start <= ts.dep ==> p.value.x1 == TimeToX(ts.dep, w.start, w.end)
    ensures p.Some? && ts.arr < w.end ==> p.value.x2 == TimeToX(ts.arr, w.start, w.end)
    ensures p.Some? && ts.arr >= w.end ==> p.value.x2 == WIDTH
    ensures p.Some? && ts.arr < w.end ==> CHART_LEFT <= p.value.x2 <= CHART_RIGHT
    ensures p.Some? && ts.dep <= ts.arr ==> p.value.x1 <= p.value.x2
  {
    var visibleDep := Max(ts.dep, w.start);
    var visibleArr := Min(ts.arr, w.end);
    if visibleArr <= w.start || visibleDep >= w.end then None
    else
      PlacedBounds(ts, w);
      var x1 := TimeToX(visibleDep, w.start, w.end);
      var x2 := if ts.arr >= w.end then WIDTH else TimeToX(visibleArr, w.start, w.end);
      Some(Placed(x1, x2, ts.dep, ts.arr, ts.seg))
  }

  lemma PlacedBounds(ts: TimedSegment, w: Window)
    requires w.start < w.end
    requires w.start < Min(ts.arr, w.end) && Max(ts.dep, w.start) < w.end
    ensures ts.dep <= ts.arr ==>
      TimeToX(Max(ts.dep, w.start), w.start, w.end) <= TimeToX(Min(ts.arr, w.end), w.start, w.end)
  {
    if ts.dep <= ts.arr {
      TimeToXMonotone(Max(ts.dep, w.start), Min(ts.arr, w.end), w.start, w.end);
    }
  }

  /** The bars of the segments that reach into the window, in segment order. */
  function PlaceSegments(segs: seq<TimedSegment>, w: Window): (r: seq<Placed>)
    requires w.start < w.end
    ensures |r| <= |segs|
  {
    if |segs| == 0 then []
    else
      var rest := PlaceSegments(segs[1..], w);
      match PlaceSegment(segs[0], w)
      case None => rest
      case Some(p) => [p] + rest
  }

  /** Every bar comes from a segment, and every segment reaching into the
      window has its bar. */
  lemma {:induction false} PlaceSegmentsMembers(segs: seq<TimedSegment>, w: Window)
    requires w.start < w.end
    ensures forall p :: p in PlaceSegments(segs, w) ==> exists ts :: ts in segs && PlaceSegment(ts, w) == Some(p)
    ensures forall ts :: ts in segs && PlaceSegment(ts, w).Some? ==> PlaceSegment(ts, w).value in PlaceSegments(segs, w)
    decreases |segs|
  {
    if |segs| > 0 {
      PlaceSegmentsMembers(segs[1..], w);
      assert forall ts :: ts in segs ==> ts == segs[0] || ts in segs[1..];
    }
  }

  /** Bars come in segment order: the bars of two lists of segments side by
      side are those of the first followed by those of the second. */
  lemma {:induction false} PlaceSegmentsConcat(a: seq<TimedSegment>, b: seq<TimedSegment>, w: Window)
    requires w.start < w.end
    ensures PlaceSegments(a + b, w) == PlaceSegments(a, w) + PlaceSegments(b, w)
    decreases |a|
  {
    if |a| == 0 {
      assert a + b == b;
    } else {
      assert a == [a[0]] + a[1..];
      assert a + b == [a[0]] + (a[1..] + b);
      PlaceSegmentsConcat(a[1..], b, w);
      PlaceSegmentsCons(a[0], a[1..], w);
      PlaceSegmentsCons(a[0], a[1..] + b, w);
      var head := if PlaceSegment(a[0], w).Some? then [PlaceSegment(a[0], w).value] else [];
      var x, y := PlaceSegments(a[1..], w), PlaceSegments(b, w);
      assert head + (x + y) == (head + x) + y;
    }
  }

  lemma PlaceSegmentsCons(ts: TimedSegment, rest: seq<TimedSegment>, w: Window)
    requires w.start < w.end
    ensures PlaceSegments([ts] + rest, w) ==
      (if PlaceSegment(ts, w).Some? then [PlaceSegment(ts, w).value] else []) + PlaceSegments(rest, w)
  {
    assert ([ts] + rest)[0] == ts;
    assert ([ts] + rest)[1..] == rest;
  }

  /** A single segment gives its bar when it reaches into the window, and
      nothing otherwise. */
  lemma PlaceSegmentsSingle(ts: TimedSegment, w: Window)
    requires w.start < w.end
    ensures PlaceSegments([ts], w) == if PlaceSegment(ts, w).Some? then [PlaceSegment(ts, w).value] else []
  {
    assert [ts][1..] == [];
  }

  /** A span of columns [lo, hi). */
  datatype Span = Span(lo: int, hi: int)

  /** The column `minutes` before the first bar's departure, or the window's
      start column when that instant is earlier. */
  function BufferStartX(placed: seq<Placed>, minutes: int, w: Window): (x: int)
    requires w.start < w.end && |placed| > 0
    ensures CHART_LEFT <= x
  {
    var t := Max(placed[0].dep - minutes * SECONDS_PER_MINUTE, w.start);
    TimeToXMonotone(w.start, t, w.start, w.end);
    TimeToX(t, w.start, w.end)
  }

  /** The column `minutes` after the last bar's arrival, or the window's end
      column when that instant is later. */
  function BufferEndX(placed: seq<Placed>, minutes: int, w: Window): (x: int)
    requires w.start < w.end && |placed| > 0
    ensures x <= CHART_RIGHT
  {
    var t := Min(placed[|placed| - 1].arr + minutes * SECONDS_PER_MINUTE, w.end);
    TimeToXMonotone(t, w.end, w.start, w.end);
    TimeToX(t, w.start, w.end)
  }

  /** The checkerboard drawn `minutes` before the first bar: from the column
      of that earlier instant (not before the window's start) up to the
      block's left edge, and only when that column is left of the block. */
  function BeforeBuffer(placed: seq<Placed>, minutes: int, w: Window): (b: Option<Span>)
    requires w.start < w.end && |placed| > 0
    ensures b.Some? <==> minutes > 0 && BufferStartX(placed, minutes, w) < placed[0].x1
    ensures b.Some? ==> b.value == Span(BufferStartX(placed, minutes, w), placed[0].x1)
    ensures b.Some? ==> CHART_LEFT <= b.value.lo < b.value.hi
    ensures placed[0].x1 <= CHART_LEFT ==> b.None?
  {
    if minutes <= 0 then None
    else
      var x := BufferStartX(placed, minutes, w);
      if x < placed[0].x1 then Some(Span(x, placed[0].x1)) else None
  }

  /** The checkerboard drawn `minutes` after the last bar: from the block's
      right edge to the column of that later instant (not after the
      window's end); never when the last bar already runs to the canvas's
      right edge. */
  function AfterBuffer(placed: seq<Placed>, minutes: int, w: Window): (b: Option<Span>)
    requires w.start < w.end && |placed| > 0
    ensures b.Some? <==>
      minutes > 0 && placed[|placed| - 1].x2 < WIDTH && BufferEndX(placed, minutes, w) > placed[|placed| - 1].x2
    ensures b.Some? ==> b.value == Span(placed[|placed| - 1].x2, BufferEndX(placed, minutes, w))
    ensures b.Some? ==> b.value.lo < b.value.hi <= CHART_RIGHT
  {
    var last := placed[|placed| - 1];
    if minutes <= 0 then None
    else
      var x := BufferEndX(placed, minutes, w);
      if last.x2 >= WIDTH then None
      else if x > last.x2 then Some(Span(last.x2, Min(x, WIDTH)))
      else None
  }

  /** A time label candidate: its columns [left, right] and its text. */
  datatype Label = Label(left: int, right: int, text: string)

  function LabelWidth(font: FontTable, text: string): int
  {
    GetTextWidth(font, text, 1)
  }

  /** The first bar's departure, starting at the bar's left edge. */
  function DepartureLabel(font: FontTable, p: Placed): (l: Label)
    ensures l.left == p.x1 && l.right - l.left == LabelWidth(font, l.text)
    ensures l.text == FormatTimeLabel(p.dep)
  {
    var text := FormatTimeLabel(p.dep);
    Label(p.x1, p.x1 + LabelWidth(font, text), text)
  }

  /** The middle of the gap between a bar's end and the next bar's start. */
  function GapCenter(p: Placed, next: Placed): int
  {
    (p.x2 + next.x1) / 2
  }

  /** An intermediate arrival, centred on the gap after its bar. */
  function GapLabel(font: FontTable, p: Placed, next: Placed): (l: Label)
    ensures l.text == FormatTimeLabel(p.arr)
    ensures l.left + l.right == 2 * GapCenter(p, next)
    ensures LabelWidth(font, l.text) >= 0 ==>
      LabelWidth(font, l.text) - 1 <= l.right - l.left <= LabelWidth(font, l.text)
  {
    var text := FormatTimeLabel(p.arr);
    var half := LabelWidth(font, text) / 2;
    Label(GapCenter(p, next) - half, GapCenter(p, next) + half, text)
  }

  /** The last bar's arrival, ending at the bar's right edge. */
  function ArrivalLabel(font: FontTable, p: Placed): (l: Label)
    ensures l.right == p.x2 && l.right - l.left == LabelWidth(font, l.text)
    ensures l.text == FormatTimeLabel(p.arr)
  {
    var text := FormatTimeLabel(p.arr);
    Label(p.x2 - LabelWidth(font, text), p.x2, text)
  }

  /** The arrival label of every gap between consecutive bars, in order. */
  function GapLabels(font: FontTable, placed: seq<Placed>): (r: seq<Label>)
    requires |placed| > 0
    ensures |r| == |placed| - 1
    ensures forall j {:trigger r[j]} :: 0 <= j < |r| ==> r[j] == GapLabel(font, placed[j], placed[j + 1])
  {
    seq(|placed| - 1, j requires 0 <= j < |placed| - 1 => GapLabel(font, placed[j], placed[j + 1]))
  }

  /** The last bar's arrival label when that arrival is inside the window. */
  function FinalLabel(font: FontTable, placed: seq<Placed>, end: int): (r: seq<Label>)
    requires |placed| > 0
    ensures |r| <= 1
    ensures |r| == 1 <==> placed[|placed| - 1].arr <= end
    ensures |r| == 1 ==> r[0] == ArrivalLabel(font, placed[|placed| - 1])
  {
    var last := placed[|placed| - 1];
    if last.arr <= end then [ArrivalLabel(font, last)] else []
  }

  /** The time label candidates of a row, in drawing order: the departure
      label, one arrival label per gap between bars, and the final arrival
      when it is inside the window. */
  function TimeLabels(font: FontTable, placed: seq<Placed>, end: int): (r: seq<Label>)
    requires |placed| > 0
    ensures |r| == |placed| + |FinalLabel(font, placed, end)|
    ensures r[0] == DepartureLabel(font, placed[0])
  {
    [DepartureLabel(font, placed[0])] + GapLabels(font, placed) + FinalLabel(font, placed, end)
  }

  /** The candidate loop as the renderer runs it: bar by bar, the first bar
      adds its departure, every bar but the last adds the arrival centred
      in the gap after it, and the last bar adds its arrival when that is
      inside the window. It collects exactly `TimeLabels`. */
  method CollectTimeLabels(font: FontTable, placed: seq<Placed>, end: int) returns (labels: seq<Label>)
    requires |placed| > 0
    ensures labels == TimeLabels(font, placed, end)
  {
    var n := |placed|;
    var gaps := GapLabels(font, placed);
    labels := [];
    var i := 0;
    while i < n
      invariant 0 <= i <= n
      invariant i == 0 ==> labels == []
      invariant 0 < i < n ==> labels == [DepartureLabel(font, placed[0])] + gaps[..i]
      invariant i == n ==> labels == TimeLabels(font, placed, end)
    {
      var p := placed[i];
      if i == 0 {
        labels := labels + [DepartureLabel(font, p)];
      }
      if i < n - 1 {
        var gap := GapLabel(font, p, placed[i + 1]);
        assert gap == gaps[i];
        LabelAppended([DepartureLabel(font, placed[0])], gaps, i);
        labels := labels + [gap];
      }
      if i == n - 1 {
        FinalAppended([DepartureLabel(font, placed[0])], gaps, FinalLabel(font, placed, end));
        labels := labels + FinalLabel(font, placed, end);
      }
      i := i + 1;
    }
  }

  lemma LabelAppended(head: seq<Label>, gaps: seq<Label>, i: nat)
    requires i < |gaps|
    ensures head + gaps[..i] + [gaps[i]] == head + gaps[..i + 1]
    ensures i == 0 ==> head + [gaps[i]] == head + gaps[..i + 1]
  {
    assert gaps[..i + 1] == gaps[..i] + [gaps[i]];
  }

  lemma FinalAppended(head: seq<Label>, gaps: seq<Label>, final: seq<Label>)
    ensures head + gaps[..|gaps|] + final == head + gaps + final
  {
    assert gaps[..|gaps|] == gaps;
  }

  /** A label is kept only when it starts more than MIN_GAP columns after the
      right edge of the last kept label; NO_LABEL_YET stands in for that edge
      before any label is kept. */
  const MIN_GAP := 4
  const NO_LABEL_YET := -1000

  /** The right edge of the last label kept among the first k. */
  function LastRight(labels: seq<Label>, keep: seq<bool>, k: nat): int
    requires k <= |labels| && k <= |keep|
  {
    if k == 0 then NO_LABEL_YET
    else if keep[k - 1] then labels[k - 1].right
    else LastRight(labels, keep, k - 1)
  }

  /** `keep` is the greedy selection: each label is kept exactly when it
      clears the last kept label by more than MIN_GAP. */
  predicate Greedy(labels: seq<Label>, keep: seq<bool>)
  {
    && |keep| == |labels|
    && forall k :: 0 <= k < |labels| ==> (keep[k] <==> labels[k].left > LastRight(labels, keep, k) + MIN_GAP)
  }

  lemma {:induction false} LastRightPrefix(labels: seq<Label>, keep: seq<bool>, keep': seq<bool>, k: nat)
    requires k <= |labels| && k <= |keep| && k <= |keep'| && keep[..k] == keep'[..k]
    ensures LastRight(labels, keep, k) == LastRight(labels, keep', k)
  {
    if k > 0 {
      assert keep[k - 1] == keep[..k][k - 1] == keep'[k - 1];
      assert keep[..k - 1] == keep[..k][..k - 1];
      assert keep'[..k - 1] == keep'[..k][..k - 1];
      LastRightPrefix(labels, keep, keep', k - 1);
    }
  }

  /** The greedy selection of labels k.. given the right edge of the last
      label kept before them. */
  function KeepFrom(labels: seq<Label>, lastRight: int, k: nat): (keep: seq<bool>)
    ensures |keep| == |labels| - k || (k > |labels| && keep == [])
    decreases |labels| - k
  {
    if k >= |labels| then []
    else
      var kept := labels[k].left > lastRight + MIN_GAP;
      [kept] + KeepFrom(labels, if kept then labels[k].right else lastRight, k + 1)
  }

  /** The labels of a row that are drawn, as a pure function. */
  function GreedyKeep(labels: seq<Label>): (keep: seq<bool>)
    ensures Greedy(labels, keep)
  {
    KeepFromIsGreedy(labels, KeepFrom(labels, NO_LABEL_YET, 0), 0);
    assert KeepFrom(labels, NO_LABEL_YET, 0)[0..] == KeepFrom(labels, NO_LABEL_YET, 0);
    KeepFrom(labels, NO_LABEL_YET, 0)
  }

  lemma {:induction false} KeepFromIsGreedy(labels: seq<Label>, keep: seq<bool>, k: nat)
    requires |keep| == |labels| && k <= |labels|
    requires keep[k..] == KeepFrom(labels, LastRight(labels, keep, k), k)
    ensures forall j :: k <= j < |labels| ==> (keep[j] <==> labels[j].left > LastRight(labels, keep, j) + MIN_GAP)
    decreases |labels| - k
  {
    if k < |labels| {
      var lr := LastRight(labels, keep, k);
      var kept := labels[k].left > lr + MIN_GAP;
      var next := if kept then labels[k].right else lr;
      assert keep[k..] == [kept] + KeepFrom(labels, next, k + 1);
      assert keep[k] == keep[k..][0] == kept;
      assert LastRight(labels, keep, k + 1) == next;
      assert keep[k + 1..] == keep[k..][1..];
      KeepFromIsGreedy(labels, keep, k + 1);
    }
  }

  /** Walks the candidates in order, keeping each one that clears the last
      kept label by more than MIN_GAP. */
  method ResolveCollisions(labels: seq<Label>) returns (keep: seq<bool>)
    ensures Greedy(labels, keep)
    ensures |labels| > 0 ==> (keep[0] <==> labels[0].left > NO_LABEL_YET + MIN_GAP)
    ensures keep == GreedyKeep(labels)
  {
    keep := [];
    var lastRight := NO_LABEL_YET;
    var i := 0;
    while i < |labels|
      invariant 0 <= i <= |labels| && |keep| == i
      invariant lastRight == LastRight(labels, keep, i)
      invariant forall k :: 0 <= k < i ==> (keep[k] <==> labels[k].left > LastRight(labels, keep, k) + MIN_GAP)
    {
      var kept := labels[i].left > lastRight + MIN_GAP;
      var keep' := keep + [kept];
      forall k | 0 <= k <= i
        ensures LastRight(labels, keep', k) == LastRight(labels, keep, k)
      {
        assert keep'[..k] == keep[..k];
        LastRightPrefix(labels, keep', keep, k);
      }
      if kept {
        lastRight := labels[i].right;
      }
      keep := keep';
      i := i + 1;
    }
    GreedyUnique(labels, keep, GreedyKeep(labels));
  }

  /** The greedy selection is unique: any two selections satisfying it agree. */
  lemma {:induction false} GreedyUnique(labels: seq<Label>, a: seq<bool>, b: seq<bool>)
    requires Greedy(labels, a) && Greedy(labels, b)
    ensures a == b
  {
    var k := 0;
    while k < |labels|
      invariant 0 <= k <= |labels| && a[..k] == b[..k]
    {
      LastRightPrefix(labels, a, b, k);
      assert a[..k + 1] == a[..k] + [a[k]];
      assert b[..k + 1] == b[..k] + [b[k]];
      k := k + 1;
    }
    assert a == a[..|labels|] && b == b[..|labels|];
  }

  /** When no label extends leftward, the last kept right edge never moves left. */
  lemma {:induction false} LastRightGrows(labels: seq<Label>, keep: seq<bool>, i: nat, j: nat)
    requires Greedy(labels, keep) && i <= j <= |labels|
    requires forall k :: 0 <= k < |labels| ==> labels[k].left <= labels[k].right
    ensures LastRight(labels, keep, i) <= LastRight(labels, keep, j)
    decreases j - i
  {
    if i < j {
      LastRightGrows(labels, keep, i, j - 1);
      if keep[j - 1] {
        assert labels[j - 1].left > LastRight(labels, keep, j - 1) + MIN_GAP;
      }
    }
  }

  /** Any two kept labels are more than MIN_GAP columns apart, so the drawn
      labels never overlap. */
  lemma KeptLabelsSeparated(labels: seq<Label>, keep: seq<bool>, i: int, j: int)
    requires Greedy(labels, keep) && 0 <= i < j < |labels| && keep[i] && keep[j]
    requires forall k :: 0 <= k < |labels| ==> labels[k].left <= labels[k].right
    ensures labels[j].left > labels[i].right + MIN_GAP
  {
    LastRightGrows(labels, keep, i + 1, j);
  }

  /** Two labels computed 3 columns apart: only the first is drawn. */
  lemma CrowdedSecondLabelDropped(keep: seq<bool>)
    requires Greedy([Label(100, 130, "8:00"), Label(133, 163, "8:20")], keep)
    ensures keep == [true, false]
  {
    assert keep[0];
    assert LastRight([Label(100, 130, "8:00"), Label(133, 163, "8:20")], keep, 1) == 130;
  }

  /** A train leaving at 08:00, arriving 08:20, leaving again at 08:25 and
      arriving 09:10, seen in the window 07:30-10:30 (instants in seconds
      from midnight): two bars with a 19-column gap centred on column 256. */
  lemma TwoSegmentExample(s1: Segment, s2: Segment)
    ensures var placed := PlaceSegments([TimedSegment(s1, 28800, 30000), TimedSegment(s2, 30300, 33000)], Window(27000, 37800));
            placed == [Placed(168, 247, 28800, 30000, s1), Placed(266, 444, 30300, 33000, s2)]
            && GapCenter(placed[0], placed[1]) == 256
  {
    var w := Window(27000, 37800);
    var segs := [TimedSegment(s1, 28800, 30000), TimedSegment(s2, 30300, 33000)];
    assert PlaceSegment(segs[0], w) == Some(Placed(168, 247, 28800, 30000, s1));
    assert PlaceSegment(segs[1], w) == Some(Placed(266, 444, 30300, 33000, s2));
    assert segs[1..][1..] == [];
  }

  /** How a kept label's text is anchored: a label at the first candidate's
      position with the first candidate's text starts at its left edge; any
      other is centred between its edges. */
  function LabelAnchor(labels: seq<Label>, k: int): (a: (int, Anchor))
    requires 0 <= k < |labels|
    ensures k == 0 ==> a == (labels[0].left, Left)
    ensures a.1 != Right
    ensures a.1 == Left ==> a.0 == labels[k].left
    ensures a.1 == Center ==> a.0 == (labels[k].left + labels[k].right) / 2
    ensures a.1 == Left <==> labels[k].left == labels[0].left && labels[k].text == labels[0].text
  {
    var l := labels[k];
    if l.left == labels[0].left && labels[0].text == l.text then (l.left, Left)
    else (((l.left + l.right) / 2), Center)
  }

  /** Every time label candidate's text, drawn with its anchor, starts at the
      candidate's left edge: the departure is left-anchored there, and a
      centred label's edges are placed so that centring lands on them. */
  lemma {:induction false} LabelTextStartsAtLeft(font: FontTable, placed: seq<Placed>, end: int, k: int)
    requires |placed| > 0 && 0 <= k < |TimeLabels(font, placed, end)|
    ensures var labels := TimeLabels(font, placed, end);
            var a := LabelAnchor(labels, k);
            TextStart(a.0, a.1, LabelWidth(font, labels[k].text)) == labels[k].left
  {
    var labels := TimeLabels(font, placed, end);
    var l := labels[k];
    var W := LabelWidth(font, l.text);
    if LabelAnchor(labels, k).1 == Center {
      assert k > 0;
      if k < |placed| {
        assert l == GapLabels(font, placed)[k - 1];
        assert l == GapLabel(font, placed[k - 1], placed[k]);
      } else {
        assert l == FinalLabel(font, placed, end)[0];
        assert l.left + l.right == 2 * l.right - W;
      }
    }
  }

  /** The text printed on a train's bar: its route (with "Northeast
      Regional" shortened, a missing or empty route read as "Train"), a
      space and the train number. */
  function RouteText(route: Option<string>): (r: string)
    ensures route.None? || route.value == "" ==> r == "Train"
    ensures route == Some("Northeast Regional") ==> r == "NE Regional"
    ensures route.Some? && route.value != "" && route.value != "Northeast Regional" ==> r == route.value
  {
    var name := if route.None? || route.value == "" then "Train" else route.value;
    if name == "Northeast Regional" then "NE Regional" else name
  }

  /** The train number as text; a null number prints as "None". */
  function NumberText(num: Option<string>): string
  {
    if num.Some? then num.value else "None"
  }

  /** The name printed on the bar: route text, a space, the train number. */
  function TrainLabel(t: Train): (s: string)
    ensures |s| > |RouteText(t.routeName)| && s[|RouteText(t.routeName)|] == ' '
    ensures s[..|RouteText(t.routeName)|] == RouteText(t.routeName)
    ensures s[|RouteText(t.routeName)| + 1..] == NumberText(t.num)
  {
    RouteText(t.routeName) + " " + NumberText(t.num)
  }

  const TRAIN_PADDING := 8

  /** Where the train's name goes across the block [x1, x2) for a name of
      width w: centred, unless centring would run past the right edge (then
      left-aligned inside the block) or past the left edge (then
      right-aligned inside the block). */
  function TrainLabelPlacement(x1: int, x2: int, w: int): (a: (int, Anchor))
    ensures (x1 + x2) / 2 + w / 2 > WIDTH ==> a == (x1 + TRAIN_PADDING, Left)
    ensures (x1 + x2) / 2 + w / 2 <= WIDTH && (x1 + x2) / 2 - w / 2 < 0 ==> a == (x2 - TRAIN_PADDING, Right)
    ensures (x1 + x2) / 2 + w / 2 <= WIDTH && (x1 + x2) / 2 - w / 2 >= 0 ==> a == ((x1 + x2) / 2, Center)
    ensures a.1 == Center ==> 0 <= TextStart(a.0, Center, w) && TextStart(a.0, Center, w) + w / 2 * 2 <= WIDTH
  {
    var center := (x1 + x2) / 2;
    if center + w / 2 > WIDTH then (x1 + TRAIN_PADDING, Left)
    else if center - w / 2 < 0 then (x2 - TRAIN_PADDING, Right)
    else (center, Center)
  }

  /** A centred train name stays wholly on the canvas: names are drawn at
      the larger scale, whose widths are even. */
  lemma CenteredTrainLabelOnCanvas(font: FontTable, t: Train, x1: int, x2: int)
    requires TrainLabelPlacement(x1, x2, GetTextWidth(font, TrainLabel(t), FONT_SCALE)).1 == Center
    ensures var w := GetTextWidth(font, TrainLabel(t), FONT_SCALE);
            var sx := TextStart(TrainLabelPlacement(x1, x2, w).0, Center, w);
            0 <= sx && sx + w <= WIDTH
  {
    LargeTextWidthIsEven(font, TrainLabel(t));
  }

  /** The least bar width, exclusive, that shows the end stations' codes. */
  function MinWidthForStation(font: FontTable): int
  {
    GetTextWidth(font, "XXX", 1) + 2 * STATION_PADDING
  }

  const STATION_PADDING := 4
  const CODE_BG_PADDING := 2

  /** The black box behind an intermediate station code centred at gx. */
  function CodeBackground(font: FontTable, code: string, gx: int): (s: Span)
    ensures GetTextWidth(font, code, 1) >= 0 ==> s.lo < gx < s.hi
    ensures s.lo + s.hi == 2 * gx
    // the box covers the centred code's columns with CODE_BG_PADDING to spare on the left
    ensures var W := GetTextWidth(font, code, 1);
            s.lo == TextStart(gx, Center, W) - CODE_BG_PADDING
            && (W >= 0 ==> TextStart(gx, Center, W) + W < s.hi)
  {
    var half := GetTextWidth(font, code, 1) / 2;
    Span(gx - half - CODE_BG_PADDING, gx + half + CODE_BG_PADDING)
  }
}
