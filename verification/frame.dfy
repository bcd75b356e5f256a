/** The whole frame: the list of drawing operations the renderer performs,
    in order, and the image obtained by applying them to a white canvas.
    The generation stamp (month, day, year and time of `now`, formatted by
    the platform's locale) is a parameter. */
module Frame {
  import opened Types
  import opened Canvas
  import opened Font
  import opened Text
  import opened TimeWindow
  import opened Schedule
  import opened Layout

  datatype DrawOp =
    | Rect(x1: int, y1: int, x2: int, y2: int, color: Color)
    | Checkerboard(x1: int, y1: int, x2: int, y2: int)
    | HLine(x1: int, x2: int, y: int, color: Color)
    | VLine(x: int, y1: int, y2: int, color: Color, dashed: bool)
    | GridLine(x: int, y1: int, y2: int)
    | Text(x: int, y: int, text: string, color: Color, anchor: Anchor, scale: int)

  function Apply(font: FontTable, c: Raster, op: DrawOp): (r: Raster)
    requires IsCanvas(c)
    ensures IsCanvas(r)
  {
    match op
    case Rect(x1, y1, x2, y2, color) => DrawRect(c, x1, y1, x2, y2, color)
    case Checkerboard(x1, y1, x2, y2) => DrawCheckerboard(c, x1, y1, x2, y2)
    case HLine(x1, x2, y, color) => DrawHLine(c, x1, x2, y, color)
    case VLine(x, y1, y2, color, dashed) => DrawVLine(c, x, y1, y2, color, dashed)
    case GridLine(x, y1, y2) => DrawGridLine(c, x, y1, y2)
    case Text(x, y, text, color, anchor, scale) => DrawText(font, c, x, y, text, color, anchor, scale)
  }

  /** The operations applied in order, each on top of the previous ones. */
  function Render(font: FontTable, c: Raster, ops: seq<DrawOp>): (r: Raster)
    requires IsCanvas(c)
    ensures IsCanvas(r)
    decreases |ops|
  {
    if |ops| == 0 then c else Render(font, Apply(font, c, ops[0]), ops[1..])
  }

  /** Rendering two lists one after the other is rendering their concatenation. */
  lemma {:induction false} RenderConcat(font: FontTable, c: Raster, a: seq<DrawOp>, b: seq<DrawOp>)
    requires IsCanvas(c)
    ensures Render(font, c, a + b) == Render(font, Render(font, c, a), b)
    decreases |a|
  {
    if |a| == 0 {
      assert a + b == b;
    } else {
      assert (a + b)[0] == a[0];
      assert (a + b)[1..] == a[1..] + b;
      RenderConcat(font, Apply(font, c, a[0]), a[1..], b);
    }
  }

  /** Rendering a single operation is applying it. */
  lemma RenderOne(font: FontTable, c: Raster, op: DrawOp)
    requires IsCanvas(c)
    ensures Render(font, c, [op]) == Apply(font, c, op)
  {
    assert [op][1..] == [];
  }

  const NO_TRAINS_MESSAGE := "No trains in next 3 hours"

  /** The frame when no train is visible: the message centred on the canvas. */
  function NoTrainsOp(): DrawOp
  {
    Text(WIDTH / 2, HEIGHT / 2 - CHAR_HEIGHT * FONT_SCALE / 2, NO_TRAINS_MESSAGE, Black, Center, FONT_SCALE)
  }

  const STAMP_X := WIDTH - 4
  const STAMP_Y := 4

  /** The generation stamp, right-aligned 4 pixels from the top-right
      corner on a white box 1-2 pixels larger than the text. */
  function StampOps(font: FontTable, stamp: string): (ops: seq<DrawOp>)
    ensures |ops| == 2 && ops[1] == Text(STAMP_X, STAMP_Y, stamp, Black, Right, 1)
    ensures ops[0].Rect? && ops[0].color == White
    // the box covers the text's columns with room to spare
    ensures ops[0].x1 < TextStart(STAMP_X, Right, GetTextWidth(font, stamp, 1)) && STAMP_X < ops[0].x2
    // and its rows
    ensures ops[0].y1 < STAMP_Y && STAMP_Y + CHAR_HEIGHT < ops[0].y2
  {
    var w := GetTextWidth(font, stamp, 1);
    [Rect(STAMP_X - w - 2, STAMP_Y - 1, STAMP_X + 2, STAMP_Y + CHAR_HEIGHT + 1, White),
     Text(STAMP_X, STAMP_Y, stamp, Black, Right, 1)]
  }

  /** The grid line and time label of each half hour from t to the window's end. */
  function MarkersFrom(w: Window, t: int): (ops: seq<DrawOp>)
    requires w.start < w.end
    ensures t <= w.end ==> |ops| > 1 && ops[0] == GridLine(TimeToX(t, w.start, w.end), TOP_MARGIN, CHART_BOTTOM)
    ensures t > w.end ==> ops == []
    // a grid line and a label for each half hour up to the window's end
    ensures t <= w.end ==> |ops| == 2 * ((w.end - t) / HALF_HOUR + 1)
    decreases w.end - t
  {
    if t > w.end then []
    else
      var x := TimeToX(t, w.start, w.end);
      HalfHoursStep(w.end - t);
      [GridLine(x, TOP_MARGIN, CHART_BOTTOM), Text(x, CHART_BOTTOM + 8, FormatTimeLabel(t), Black, Center, FONT_SCALE)]
        + MarkersFrom(w, t + HALF_HOUR)
  }

  /** Each grid line is followed by its half hour's time, centred on the
      line 8 rows below the axis at the larger scale. */
  lemma MarkerLabel(w: Window, t: int)
    requires w.start < w.end && t <= w.end
    ensures var ops := MarkersFrom(w, t);
            ops[1] == Text(TimeToX(t, w.start, w.end), CHART_BOTTOM + 8, FormatTimeLabel(t), Black, Center, FONT_SCALE)
  {
  }

  /** A span of at least one half hour holds one more whole half hour than
      the span one half hour shorter. */
  lemma HalfHoursStep(d: int)
    requires d >= 0
    ensures d < HALF_HOUR ==> d / HALF_HOUR == 0
    ensures d >= HALF_HOUR ==> d / HALF_HOUR == (d - HALF_HOUR) / HALF_HOUR + 1
  {
  }

  /** Marker i is the grid line of the half hour s = t + i * 30 minutes,
      followed by that half hour's time label. */
  lemma {:induction false} MarkerAt(w: Window, t: int, i: nat, s: int)
    requires w.start < w.end && t <= w.end && i <= (w.end - t) / HALF_HOUR && s == t + i * HALF_HOUR
    ensures MarkerShown(w, MarkersFrom(w, t), i, s)
    decreases i
  {
    if i > 0 {
      HalfHoursStep(w.end - t);
      MarkerAt(w, t + HALF_HOUR, i - 1, s);
      MarkerBehind(w, t, i, s);
    } else {
      MarkerLabel(w, t);
    }
  }

  /** Positions 2 * i and 2 * i + 1 of ops hold the grid line and then the
      time label of the half hour s. */
  predicate MarkerShown(w: Window, ops: seq<DrawOp>, i: nat, s: int)
    requires w.start < w.end
  {
    var x := TimeToX(s, w.start, w.end);
    && 2 * i + 1 < |ops|
    && ops[2 * i] == GridLine(x, TOP_MARGIN, CHART_BOTTOM)
    && ops[2 * i + 1] == Text(x, CHART_BOTTOM + 8, FormatTimeLabel(s), Black, Center, FONT_SCALE)
  }

  /** MarkerAt's step: the markers from t are those from the next half hour
      behind t's own two. */
  lemma MarkerBehind(w: Window, t: int, i: nat, s: int)
    requires w.start < w.end && t <= w.end && i > 0
    requires MarkerShown(w, MarkersFrom(w, t + HALF_HOUR), i - 1, s)
    ensures MarkerShown(w, MarkersFrom(w, t), i, s)
  {
    var rest := MarkersFrom(w, t + HALF_HOUR);
    assert MarkersFrom(w, t)[2..] == rest;
  }

  /** The grid-line columns of a three-hour window from a half-hour boundary. */
  function GridColumns(ops: seq<DrawOp>): seq<int>
  {
    if |ops| == 0 then []
    else (if ops[0].GridLine? then [ops[0].x] else []) + GridColumns(ops[1..])
  }

  lemma MarkerStep(w: Window, t: int)
    requires w.start < w.end && t <= w.end
    ensures GridColumns(MarkersFrom(w, t)) == [TimeToX(t, w.start, w.end)] + GridColumns(MarkersFrom(w, t + HALF_HOUR))
  {
    var ops := MarkersFrom(w, t);
    var rest := MarkersFrom(w, t + HALF_HOUR);
    assert ops[1..] == [ops[1]] + rest;
    assert ops[1..][1..] == rest;
  }

  /** On a window of the frame's length, the column of an instant e seconds
      after the start. */
  lemma TimeToXOnFrameWindow(start: int, e: int)
    requires e >= 0
    ensures TimeToX(start + e, start, start + HORIZON) == (CHART_LEFT * HORIZON + e * (CHART_RIGHT - CHART_LEFT)) / HORIZON
  {
  }

  /** A window of the frame's length has seven half-hour markers, and they
      sit at the same columns whatever the window's start. */
  lemma MarkerColumns(start: int)
    ensures GridColumns(MarkersFrom(Window(start, start + HORIZON), start)) == [50, 168, 286, 405, 523, 641, 760]
  {
    ColumnsFrom(start, 0, start);
  }

  /** The seven marker columns of a window of the frame's length. */
  const MARKER_COLUMNS: seq<int> := [50, 168, 286, 405, 523, 641, 760]

  /** The markers from t, the i-th half hour of the window, on sit at the
      columns from the i-th on. */
  lemma {:induction false} ColumnsFrom(start: int, i: nat, t: int)
    requires i <= 7 && t == start + i * HALF_HOUR
    ensures GridColumns(MarkersFrom(Window(start, start + HORIZON), t)) == MARKER_COLUMNS[i..]
    decreases 7 - i
  {
    var w := Window(start, start + HORIZON);
    if i == 7 {
      assert MarkersFrom(w, t) == [];
    } else {
      ColumnsFrom(start, i + 1, t + HALF_HOUR);
      ColumnAt(start, i, t);
      ColumnsCons(w, t, MARKER_COLUMNS[i], MARKER_COLUMNS[i + 1..], MARKER_COLUMNS[i..]);
    }
  }

  /** The markers from t sit at x and then at the columns of the markers
      from the next half hour. */
  lemma ColumnsCons(w: Window, t: int, x: int, rest: seq<int>, cols: seq<int>)
    requires w.start < w.end && t <= w.end && |cols| > 0 && cols[0] == x && cols[1..] == rest
    requires TimeToX(t, w.start, w.end) == x
    requires GridColumns(MarkersFrom(w, t + HALF_HOUR)) == rest
    ensures GridColumns(MarkersFrom(w, t)) == cols
  {
    MarkerStep(w, t);
    assert cols == [x] + rest;
  }

  /** The i-th half hour of a window of the frame's length falls on the i-th
      marker column. */
  lemma ColumnAt(start: int, i: nat, t: int)
    requires i < 7 && t == start + i * HALF_HOUR
    ensures TimeToX(t, start, start + HORIZON) == MARKER_COLUMNS[i]
  {
    TimeToXOnFrameWindow(start, i * HALF_HOUR);
    if i == 0 {
    } else if i == 1 {
    } else if i == 2 {
    } else if i == 3 {
    } else if i == 4 {
    } else if i == 5 {
    } else {
      assert i == 6;
    }
  }

  /** The dashed "now" line, reaching 5 rows above the chart's top. */
  function NowLine(w: Window, now: int): (op: DrawOp)
    requires w.start < w.end
  {
    VLine(TimeToX(now, w.start, w.end), TOP_MARGIN - 5, CHART_BOTTOM, Black, true)
  }

  /** The now line always falls in the first half hour's columns. */
  lemma NowLineInFirstHalfHour(now: int)
    ensures var w := WindowAt(now);
            CHART_LEFT <= NowLine(w, now).x <= 168
  {
    var w := WindowAt(now);
    TimeToXMonotone(w.start, now, w.start, w.end);
    TimeToXMonotone(now, w.start + HALF_HOUR, w.start, w.end);
    assert TimeToX(w.start + HALF_HOUR, w.start, w.end) == 168;
  }

  /** The operations that do not depend on the trains: stamp, axis, half-hour
      markers and now line. */
  function ChartOps(font: FontTable, w: Window, now: int, stamp: string): seq<DrawOp>
    requires w.start < w.end
  {
    StampOps(font, stamp) + [HLine(0, WIDTH, CHART_BOTTOM, Black)] + MarkersFrom(w, w.start) + [NowLine(w, now)]
  }

  /** One black bar per placed segment, across the bar's rows. */
  function BarOps(placed: seq<Placed>, yCenter: int): (ops: seq<DrawOp>)
    ensures |ops| == |placed|
    ensures forall k :: 0 <= k < |ops| ==>
      ops[k] == Rect(placed[k].x1, BarTop(yCenter), placed[k].x2, BarBottom(yCenter), Black)
  {
    if |placed| == 0 then []
    else [Rect(placed[0].x1, BarTop(yCenter), placed[0].x2, BarBottom(yCenter), Black)] + BarOps(placed[1..], yCenter)
  }

  /** The checkerboard buffers on either side of the block of bars. */
  function BufferOps(placed: seq<Placed>, yCenter: int, before: int, after: int, w: Window): (ops: seq<DrawOp>)
    requires w.start < w.end
    ensures |placed| == 0 ==> ops == []
    ensures forall op :: op in ops ==> op.Checkerboard? && op.y1 == BarTop(yCenter) && op.y2 == BarBottom(yCenter)
    // a buffer touches the block only at its edge and never covers a bar column
    ensures forall op :: op in ops ==>
      (op.x2 == placed[0].x1 && CHART_LEFT <= op.x1) ||
      (op.x1 == placed[|placed| - 1].x2 && op.x2 <= CHART_RIGHT)
    // one checkerboard for each buffer that is drawn, across the bar's rows
    ensures |placed| > 0 ==>
      |ops| == (if BeforeBuffer(placed, before, w).Some? then 1 else 0) + (if AfterBuffer(placed, after, w).Some? then 1 else 0)
    ensures |placed| > 0 && BeforeBuffer(placed, before, w).Some? ==>
      var b := BeforeBuffer(placed, before, w).value;
      Checkerboard(b.lo, BarTop(yCenter), b.hi, BarBottom(yCenter)) in ops
    ensures |placed| > 0 && AfterBuffer(placed, after, w).Some? ==>
      var a := AfterBuffer(placed, after, w).value;
      Checkerboard(a.lo, BarTop(yCenter), a.hi, BarBottom(yCenter)) in ops
  {
    if |placed| == 0 then []
    else
      var b := BeforeBuffer(placed, before, w);
      var a := AfterBuffer(placed, after, w);
      (if b.Some? then [Checkerboard(b.value.lo, BarTop(yCenter), b.value.hi, BarBottom(yCenter))] else [])
        + (if a.Some? then [Checkerboard(a.value.lo, BarTop(yCenter), a.value.hi, BarBottom(yCenter))] else [])
  }

  /** The row of the time labels, above the bar. */
  function TimeRow(yCenter: int): int { BarTop(yCenter) - CHAR_HEIGHT - 3 }

  /** The kept labels from k on: each on a white box one pixel larger than
      its columns, then its text. Dropped labels draw nothing. */
  function LabelOpsFrom(labels: seq<Label>, keep: seq<bool>, k: nat, y: int): (ops: seq<DrawOp>)
    requires |keep| == |labels|
    ensures forall op :: op in ops ==>
      exists j :: k <= j < |labels| && keep[j] && (op == LabelPatch(labels, j, y) || op == LabelTextOp(labels, j, y))
    // each kept label puts down its white patch and its text
    ensures forall j {:trigger LabelPair(labels, j, y)} :: k <= j < |labels| && keep[j] ==>
      LabelPair(labels, j, y)[0] in ops && LabelPair(labels, j, y)[1] in ops
    // two operations per kept label
    ensures |ops| == 2 * |KeptFrom(keep, k)|
    decreases |labels| - k
  {
    if k >= |labels| then []
    else (if keep[k] then LabelPair(labels, k, y) else []) + LabelOpsFrom(labels, keep, k + 1, y)
  }

  /** The indices from k on of the labels the resolver keeps, in increasing
      order. */
  function KeptFrom(keep: seq<bool>, k: nat): (js: seq<nat>)
    ensures forall i :: 0 <= i < |js| ==> k <= js[i] < |keep| && keep[js[i]]
    ensures forall i, i' :: 0 <= i < i' < |js| ==> js[i] < js[i']
    ensures forall j {:trigger j in js} :: k <= j < |keep| && keep[j] ==> j in js
    decreases |keep| - k
  {
    if k >= |keep| then [] else (if keep[k] then [k] else []) + KeptFrom(keep, k + 1)
  }

  /** The i-th kept label from k on is drawn as its white patch immediately
      followed by its text, at positions 2 * i and 2 * i + 1: the kept labels
      are drawn in increasing order, and (with the count of LabelOpsFrom)
      nothing else is drawn. */
  lemma {:induction false} LabelAt(labels: seq<Label>, keep: seq<bool>, k: nat, y: int, i: nat)
    requires |keep| == |labels| && i < |KeptFrom(keep, k)|
    ensures PairAt(labels, LabelOpsFrom(labels, keep, k, y), KeptFrom(keep, k), i, y)
    decreases |labels| - k
  {
    if keep[k] {
      if i > 0 {
        LabelAt(labels, keep, k + 1, y, i - 1);
      }
      KeptLabelAt(labels, keep, k, y, i);
    } else {
      LabelAt(labels, keep, k + 1, y, i);
      SkippedLabelAt(labels, keep, k, y, i);
    }
  }

  /** Positions 2 * i and 2 * i + 1 of ops hold the white patch and then the
      text of label js[i]. */
  predicate PairAt(labels: seq<Label>, ops: seq<DrawOp>, js: seq<nat>, i: nat, y: int)
  {
    && i < |js| && js[i] < |labels| && 2 * i + 1 < |ops|
    && ops[2 * i] == LabelPair(labels, js[i], y)[0]
    && ops[2 * i + 1] == LabelPair(labels, js[i], y)[1]
  }

  /** LabelAt's step when label k is kept: it comes first, and the i-th kept
      label after it comes i-th. */
  lemma KeptLabelAt(labels: seq<Label>, keep: seq<bool>, k: nat, y: int, i: nat)
    requires |keep| == |labels| && k < |labels| && keep[k] && i < |KeptFrom(keep, k)|
    requires i > 0 ==> PairAt(labels, LabelOpsFrom(labels, keep, k + 1, y), KeptFrom(keep, k + 1), i - 1, y)
    ensures PairAt(labels, LabelOpsFrom(labels, keep, k, y), KeptFrom(keep, k), i, y)
  {
    PairFirst(labels, k, y, LabelOpsFrom(labels, keep, k, y), LabelOpsFrom(labels, keep, k + 1, y),
              KeptFrom(keep, k), KeptFrom(keep, k + 1), i);
  }

  /** Label k's pair put in front of the pairs of the labels js': the pair
      of the i-th label of [k] + js' lands at 2 * i. */
  lemma PairFirst(labels: seq<Label>, k: nat, y: int, ops: seq<DrawOp>, rest: seq<DrawOp>,
                  js: seq<nat>, js': seq<nat>, i: nat)
    requires k < |labels| && ops == LabelPair(labels, k, y) + rest && js == [k] + js'
    requires i < |js| && 2 * i + 1 < |ops|
    requires i > 0 ==> PairAt(labels, rest, js', i - 1, y)
    ensures PairAt(labels, ops, js, i, y)
  {
    if i > 0 {
      assert js[i] == js'[i - 1];
    }
  }

  /** LabelAt's step when label k is dropped: nothing changes. */
  lemma SkippedLabelAt(labels: seq<Label>, keep: seq<bool>, k: nat, y: int, i: nat)
    requires |keep| == |labels| && k < |labels| && !keep[k]
    requires PairAt(labels, LabelOpsFrom(labels, keep, k + 1, y), KeptFrom(keep, k + 1), i, y)
    ensures PairAt(labels, LabelOpsFrom(labels, keep, k, y), KeptFrom(keep, k), i, y)
  {
    assert LabelOpsFrom(labels, keep, k, y) == LabelOpsFrom(labels, keep, k + 1, y);
    assert KeptFrom(keep, k) == KeptFrom(keep, k + 1);
  }

  /** The white patch behind label k. */
  function LabelPatch(labels: seq<Label>, k: int, y: int): DrawOp
    requires 0 <= k < |labels|
  {
    Rect(labels[k].left - 1, y - 1, labels[k].right + 1, y + CHAR_HEIGHT + 1, White)
  }

  /** The text of label k. */
  function LabelTextOp(labels: seq<Label>, k: int, y: int): DrawOp
    requires 0 <= k < |labels|
  {
    var (x, anchor) := LabelAnchor(labels, k);
    Text(x, y, labels[k].text, Black, anchor, 1)
  }

  /** Label k as drawn: its patch, then its text. */
  function LabelPair(labels: seq<Label>, k: int, y: int): (ops: seq<DrawOp>)
    requires 0 <= k < |labels|
    ensures |ops| == 2 && ops[1].Text? && ops[1].text == labels[k].text
  {
    [LabelPatch(labels, k, y), LabelTextOp(labels, k, y)]
  }

  /** A kept label is a white patch one pixel larger than the label on every
      side, then its text, black at scale 1, at the label's anchor; the text
      starts at the label's left edge (LabelTextStartsAtLeft). */
  lemma LabelPairOps(labels: seq<Label>, k: int, y: int)
    requires 0 <= k < |labels|
    ensures LabelPair(labels, k, y)[0] == Rect(labels[k].left - 1, y - 1, labels[k].right + 1, y + CHAR_HEIGHT + 1, White)
    ensures LabelPair(labels, k, y)[1] == Text(LabelAnchor(labels, k).0, y, labels[k].text, Black, LabelAnchor(labels, k).1, 1)
  {
  }

  /** A bar wide enough to show its end station codes. */
  predicate ShowsCodes(font: FontTable, p: Placed)
  {
    p.x2 - p.x1 > MinWidthForStation(font)
  }

  /** The first station's code, left-aligned inside the first bar. */
  function FromCodeOp(placed: seq<Placed>, y: int): DrawOp
    requires |placed| > 0
  {
    Text(placed[0].x1 + STATION_PADDING, y, placed[0].seg.from.code, White, Left, 1)
  }

  /** The last station's code, right-aligned inside the last bar. */
  function ToCodeOp(placed: seq<Placed>, y: int): DrawOp
    requires |placed| > 0
  {
    var last := placed[|placed| - 1];
    Text(last.x2 - STATION_PADDING, y, last.seg.to.code, White, Right, 1)
  }

  /** The code of the station between bars j and j + 1: a black box, then
      the code centred on the gap. */
  function GapCodeOps(font: FontTable, placed: seq<Placed>, j: int, y: int): seq<DrawOp>
    requires 0 <= j < |placed| - 1
  {
    var gx := GapCenter(placed[j], placed[j + 1]);
    var code := placed[j].seg.to.code;
    var bg := CodeBackground(font, code, gx);
    [Rect(bg.lo, y - 1, bg.hi, y + CHAR_HEIGHT + 1, Black), Text(gx, y, code, White, Center, 1)]
  }

  /** The codes drawn for bar k: the first station's code when k is the
      first bar and it is wide enough, the last station's code when k is the
      last bar and it is wide enough, and the code on the gap after k. */
  function CodeStep(font: FontTable, placed: seq<Placed>, k: nat, y: int): (ops: seq<DrawOp>)
    requires k < |placed|
    ensures k < |placed| - 1 ==> GapCodeOps(font, placed, k, y)[0] in ops && GapCodeOps(font, placed, k, y)[1] in ops
    ensures k == 0 ==> (FromCodeOp(placed, y) in ops <==> ShowsCodes(font, placed[0]))
    ensures k == |placed| - 1 ==> (ToCodeOp(placed, y) in ops <==> ShowsCodes(font, placed[|placed| - 1]))
    ensures forall op :: op in ops && op.Text? && op.anchor == Left ==> k == 0 && op == FromCodeOp(placed, y)
    ensures forall op :: op in ops && op.Text? && op.anchor == Right ==> k == |placed| - 1 && op == ToCodeOp(placed, y)
    ensures |ops| == (if k < |placed| - 1 then 2 else 0)
      + (if k == 0 && ShowsCodes(font, placed[0]) then 1 else 0)
      + (if k == |placed| - 1 && ShowsCodes(font, placed[|placed| - 1]) then 1 else 0)
    // the end codes come first, the first station's before the last's, and the gap's box and code last
    ensures k == 0 && ShowsCodes(font, placed[0]) ==> ops[0] == FromCodeOp(placed, y)
    ensures k == |placed| - 1 && ShowsCodes(font, placed[k]) ==> ops[|ops| - 1] == ToCodeOp(placed, y)
    ensures k < |placed| - 1 ==>
      ops[|ops| - 2] == GapCodeOps(font, placed, k, y)[0] && ops[|ops| - 1] == GapCodeOps(font, placed, k, y)[1]
  {
    var isLast := k == |placed| - 1;
    var shows := ShowsCodes(font, placed[k]);
    var from := if shows && k == 0 then [FromCodeOp(placed, y)] else [];
    var to := if shows && isLast then [ToCodeOp(placed, y)] else [];
    var middle := if isLast then [] else GapCodeOps(font, placed, k, y);
    from + to + middle
  }

  /** The number of end codes CodeOpsFrom puts before the first gap: one
      when it starts at the first bar and that bar shows its code. */
  function LeadingCodes(font: FontTable, placed: seq<Placed>, k: nat): nat
  {
    if k == 0 && |placed| > 0 && ShowsCodes(font, placed[0]) then 1 else 0
  }

  /** What the station codes of bars k.. look like, drawn in order: two
      operations per gap and one per end code drawn; each gap's box and then
      its code, in bar order, after the first station's code when that is
      drawn; the first station's code first and the last station's code last;
      each end code present exactly when its bar is wide enough, and the
      first station's code only when the codes start at the first bar. */
  ghost predicate CodesLaidOut(font: FontTable, placed: seq<Placed>, k: nat, y: int, ops: seq<DrawOp>)
  {
    && |ops| == 2 * Max(0, |placed| - 1 - k)
      + (if k == 0 < |placed| && ShowsCodes(font, placed[0]) then 1 else 0)
      + (if k < |placed| && ShowsCodes(font, placed[|placed| - 1]) then 1 else 0)
    && (forall j :: k <= j < |placed| - 1 ==>
          && ops[LeadingCodes(font, placed, k) + 2 * (j - k)] == GapCodeOps(font, placed, j, y)[0]
          && ops[LeadingCodes(font, placed, k) + 2 * (j - k) + 1] == GapCodeOps(font, placed, j, y)[1])
    && (k == 0 < |placed| && ShowsCodes(font, placed[0]) ==> ops[0] == FromCodeOp(placed, y))
    && (k < |placed| && ShowsCodes(font, placed[|placed| - 1]) ==> ops[|ops| - 1] == ToCodeOp(placed, y))
    && EndCodesListed(font, placed, k, y, ops)
  }

  /** Which end codes occur among the codes of bars k.. at all. */
  ghost predicate EndCodesListed(font: FontTable, placed: seq<Placed>, k: nat, y: int, ops: seq<DrawOp>)
  {
    && (k == 0 < |placed| ==> (FromCodeOp(placed, y) in ops <==> ShowsCodes(font, placed[0])))
    && (k < |placed| ==> (ToCodeOp(placed, y) in ops <==> ShowsCodes(font, placed[|placed| - 1])))
    && (k > 0 && |placed| > 0 ==> FromCodeOp(placed, y) !in ops)
  }

  /** The station codes of bars k..: the end codes inside the first and last
      bars when those are wide enough, and each intermediate code centred on
      its gap on a black box. */
  function CodeOpsFrom(font: FontTable, placed: seq<Placed>, k: nat, y: int): (ops: seq<DrawOp>)
    ensures CodesLaidOut(font, placed, k, y, ops)
    decreases |placed| - k
  {
    if k >= |placed| then []
    else
      var rest := CodeOpsFrom(font, placed, k + 1, y);
      CodesAfterStep(font, placed, k, y, rest);
      CodeStep(font, placed, k, y) + rest
  }

  /** Bar k's codes put in front of the codes of bars k + 1.. lay out the
      codes of bars k.. */
  lemma CodesAfterStep(font: FontTable, placed: seq<Placed>, k: nat, y: int, rest: seq<DrawOp>)
    requires k < |placed| && CodesLaidOut(font, placed, k + 1, y, rest)
    ensures CodesLaidOut(font, placed, k, y, CodeStep(font, placed, k, y) + rest)
  {
    GapsAfterStep(font, placed, k, y, rest);
    EndsAfterStep(font, placed, k, y, rest);
    MembersAfterStep(font, placed, k, y, rest);
  }

  /** The gaps' positions in CodeOpsFrom from bar k, given bar k's codes and
      the positions from bar k + 1 on. */
  lemma GapsAfterStep(font: FontTable, placed: seq<Placed>, k: nat, y: int, rest: seq<DrawOp>)
    requires k < |placed| && CodesLaidOut(font, placed, k + 1, y, rest)
    ensures forall j :: k <= j < |placed| - 1 ==>
      && (CodeStep(font, placed, k, y) + rest)[LeadingCodes(font, placed, k) + 2 * (j - k)] == GapCodeOps(font, placed, j, y)[0]
      && (CodeStep(font, placed, k, y) + rest)[LeadingCodes(font, placed, k) + 2 * (j - k) + 1] == GapCodeOps(font, placed, j, y)[1]
  {
    var step := CodeStep(font, placed, k, y);
    forall j | k <= j < |placed| - 1
      ensures && (step + rest)[LeadingCodes(font, placed, k) + 2 * (j - k)] == GapCodeOps(font, placed, j, y)[0]
              && (step + rest)[LeadingCodes(font, placed, k) + 2 * (j - k) + 1] == GapCodeOps(font, placed, j, y)[1]
    {
      var i := LeadingCodes(font, placed, k) + 2 * (j - k);
      if j == k {
        assert (step + rest)[i] == step[|step| - 2] && (step + rest)[i + 1] == step[|step| - 1];
      } else {
        assert i - |step| == 2 * (j - k - 1);
        assert (step + rest)[i] == rest[2 * (j - k - 1)] && (step + rest)[i + 1] == rest[2 * (j - k - 1) + 1];
      }
    }
  }

  /** The end codes' positions in CodeOpsFrom from bar k, given bar k's
      codes and the codes from bar k + 1 on. */
  lemma EndsAfterStep(font: FontTable, placed: seq<Placed>, k: nat, y: int, rest: seq<DrawOp>)
    requires k < |placed| && CodesLaidOut(font, placed, k + 1, y, rest)
    ensures k == 0 && ShowsCodes(font, placed[0]) ==> (CodeStep(font, placed, k, y) + rest)[0] == FromCodeOp(placed, y)
    ensures ShowsCodes(font, placed[|placed| - 1]) ==>
      |CodeStep(font, placed, k, y) + rest| > 0 && (CodeStep(font, placed, k, y) + rest)[|CodeStep(font, placed, k, y) + rest| - 1] == ToCodeOp(placed, y)
  {
    var step := CodeStep(font, placed, k, y);
    if ShowsCodes(font, placed[|placed| - 1]) && k == |placed| - 1 {
      assert step + rest == step;
    }
  }

  /** The count and the end codes' presence in CodeOpsFrom from bar k, given
      bar k's codes and the codes from bar k + 1 on. */
  lemma MembersAfterStep(font: FontTable, placed: seq<Placed>, k: nat, y: int, rest: seq<DrawOp>)
    requires k < |placed| && CodesLaidOut(font, placed, k + 1, y, rest)
    ensures |CodeStep(font, placed, k, y) + rest| == 2 * Max(0, |placed| - 1 - k)
      + (if k == 0 && ShowsCodes(font, placed[0]) then 1 else 0)
      + (if ShowsCodes(font, placed[|placed| - 1]) then 1 else 0)
    ensures k == 0 ==> (FromCodeOp(placed, y) in CodeStep(font, placed, k, y) + rest <==> ShowsCodes(font, placed[0]))
    ensures ToCodeOp(placed, y) in CodeStep(font, placed, k, y) + rest <==> ShowsCodes(font, placed[|placed| - 1])
    ensures k > 0 ==> FromCodeOp(placed, y) !in CodeStep(font, placed, k, y) + rest
  {
    var step := CodeStep(font, placed, k, y);
    if k == |placed| - 1 {
      assert rest == [];
      assert step + rest == step;
    }
  }

  /** The train's name across its block, on the bar's lower text line. */
  function NameOp(font: FontTable, t: Train, placed: seq<Placed>, yCenter: int): (op: DrawOp)
    requires |placed| > 0
    ensures op.Text? && op.text == TrainLabel(t) && op.scale == FONT_SCALE && op.color == White
    // placed across the block from the first bar's left edge to the last bar's right edge
    ensures (op.x, op.anchor) ==
      TrainLabelPlacement(placed[0].x1, placed[|placed| - 1].x2, GetTextWidth(font, TrainLabel(t), FONT_SCALE))
    // on the bar's lower text line
    ensures op.y == BarBottom(yCenter) - CHAR_HEIGHT * FONT_SCALE - 2
  {
    var name := TrainLabel(t);
    var (x, anchor) := TrainLabelPlacement(placed[0].x1, placed[|placed| - 1].x2, GetTextWidth(font, name, FONT_SCALE));
    Text(x, BarBottom(yCenter) - CHAR_HEIGHT * FONT_SCALE - 2, name, White, anchor, FONT_SCALE)
  }

  /** The train's bars, in segment order, that reach into the window. */
  function RowPlaced(v: VisibleTrain, w: Window): seq<Placed>
    requires w.start < w.end
  {
    PlaceSegments(v.segments, w)
  }

  /** The row's kept time labels, on the text line above the bar. */
  function RowLabelOps(font: FontTable, placed: seq<Placed>, yCenter: int, end: int): seq<DrawOp>
    requires |placed| > 0
  {
    var labels := TimeLabels(font, placed, end);
    LabelOpsFrom(labels, GreedyKeep(labels), 0, TimeRow(yCenter))
  }

  /** The row's station codes, on the bar's upper text line. */
  function RowCodeOps(font: FontTable, placed: seq<Placed>, yCenter: int): seq<DrawOp>
  {
    CodeOpsFrom(font, placed, 0, BarTop(yCenter) + 2)
  }

  /** Four runs of operations and a final one, one after another: each run
      starts where the runs before it end. */
  function Assemble(a: seq<DrawOp>, b: seq<DrawOp>, c: seq<DrawOp>, d: seq<DrawOp>, e: DrawOp): (ops: seq<DrawOp>)
    ensures |ops| == |a| + |b| + |c| + |d| + 1
    ensures ops[..|a|] == a
    ensures ops[|a|..][..|b|] == b
    ensures ops[|a|..][|b|..][..|c|] == c
    ensures ops[|a|..][|b|..][|c|..][..|d|] == d
    ensures ops[|a|..][|b|..][|c|..][|d|..] == [e]
  {
    var ops := a + b + c + d + [e];
    assert ops[|a|..] == b + c + d + [e];
    assert ops[|a|..][|b|..] == c + d + [e];
    assert ops[|a|..][|b|..][|c|..] == d + [e];
    ops
  }

  /** Everything drawn for the train in row i: bars, buffers, time labels,
      station codes and name, in that order. A train none of whose
      segments reaches into the window draws nothing. */
  function RowOps(font: FontTable, v: VisibleTrain, yCenter: int, before: int, after: int, w: Window): (ops: seq<DrawOp>)
    requires w.start < w.end
    ensures |PlaceSegments(v.segments, w)| == 0 ==> ops == []
  {
    var placed := RowPlaced(v, w);
    if |placed| == 0 then []
    else
      Assemble(BarOps(placed, yCenter), BufferOps(placed, yCenter, before, after, w),
               RowLabelOps(font, placed, yCenter, w.end), RowCodeOps(font, placed, yCenter),
               NameOp(font, v.train, placed, yCenter))
  }

  /** A row with bars draws, in order: one bar per placed segment, then the
      buffers, then the kept time labels, then the station codes, and the
      train's name last. */
  lemma RowOpsParts(font: FontTable, v: VisibleTrain, yCenter: int, before: int, after: int, w: Window)
    requires w.start < w.end && |RowPlaced(v, w)| > 0
    ensures var ops := RowOps(font, v, yCenter, before, after, w);
            var placed := RowPlaced(v, w);
            var bars := BarOps(placed, yCenter);
            var buffers := BufferOps(placed, yCenter, before, after, w);
            var texts := RowLabelOps(font, placed, yCenter, w.end);
            var codes := RowCodeOps(font, placed, yCenter);
            && |ops| == |bars| + |buffers| + |texts| + |codes| + 1
            && ops[..|bars|] == bars
            && ops[|bars|..][..|buffers|] == buffers
            && ops[|bars|..][|buffers|..][..|texts|] == texts
            && ops[|bars|..][|buffers|..][|texts|..][..|codes|] == codes
            && ops[|bars|..][|buffers|..][|texts|..][|codes|..] == [NameOp(font, v.train, placed, yCenter)]
  {
  }

  /** Row i of the frame: train i's operations, centred on row i of |vs|
      equal rows. */
  function Rows(font: FontTable, vs: seq<VisibleTrain>, before: int, after: int, w: Window): (rows: seq<seq<DrawOp>>)
    requires w.start < w.end && |vs| > 0
    ensures |rows| == |vs|
  {
    seq(|vs|, i requires 0 <= i < |vs| => RowOps(font, vs[i], RowCenter(i, RowHeight(|vs|)), before, after, w))
  }

  /** The rows' operations, one row after another. */
  function Flatten(rows: seq<seq<DrawOp>>): seq<DrawOp>
  {
    if |rows| == 0 then [] else Flatten(rows[..|rows| - 1]) + rows[|rows| - 1]
  }

  /** Where row i starts once the rows are flattened. */
  function Offset(rows: seq<seq<DrawOp>>, i: nat): nat
    requires i <= |rows|
  {
    if i == 0 then 0 else Offset(rows, i - 1) + |rows[i - 1]|
  }

  lemma {:induction false} OffsetPrefix(rows: seq<seq<DrawOp>>, n: nat, i: nat)
    requires i <= n <= |rows|
    ensures Offset(rows[..n], i) == Offset(rows, i)
    decreases i
  {
    if i > 0 {
      OffsetPrefix(rows, n, i - 1);
      assert rows[..n][i - 1] == rows[i - 1];
    }
  }

  lemma {:induction false} OffsetGrows(rows: seq<seq<DrawOp>>, i: nat, j: nat)
    requires i <= j <= |rows|
    ensures Offset(rows, i) <= Offset(rows, j)
    decreases j
  {
    if i < j {
      OffsetGrows(rows, i, j - 1);
    }
  }

  lemma {:induction false} FlattenLength(rows: seq<seq<DrawOp>>)
    ensures |Flatten(rows)| == Offset(rows, |rows|)
    decreases |rows|
  {
    if |rows| > 0 {
      var n := |rows| - 1;
      FlattenLength(rows[..n]);
      OffsetPrefix(rows, n, n);
    }
  }

  /** Flattening puts row i exactly between its offset and the next row's. */
  lemma {:induction false} FlattenRowAt(rows: seq<seq<DrawOp>>, i: nat)
    requires i < |rows|
    ensures Offset(rows, i) <= Offset(rows, i + 1) <= |Flatten(rows)|
    ensures Flatten(rows)[Offset(rows, i)..Offset(rows, i + 1)] == rows[i]
    decreases |rows|
  {
    var n := |rows| - 1;
    var prefix := rows[..n];
    var f := Flatten(prefix);
    FlattenLength(rows);
    FlattenLength(prefix);
    OffsetPrefix(rows, n, n);
    OffsetGrows(rows, i + 1, |rows|);
    assert Flatten(rows) == f + rows[n];
    if i < n {
      FlattenRowAt(prefix, i);
      OffsetPrefix(rows, n, i);
      OffsetPrefix(rows, n, i + 1);
      assert prefix[i] == rows[i];
      assert (f + rows[n])[Offset(rows, i)..Offset(rows, i + 1)] == f[Offset(rows, i)..Offset(rows, i + 1)];
    } else {
      assert (f + rows[n])[|f|..|f| + |rows[n]|] == rows[n];
    }
  }

  /** The frame's operations for the trains `vs`, already chosen and sorted,
      in window w. */
  function FrameOpsFor(font: FontTable, vs: seq<VisibleTrain>, w: Window, now: int, stamp: string,
                       before: int, after: int): (ops: seq<DrawOp>)
    requires w.start < w.end
    // no train: the message and nothing else
    ensures |vs| == 0 <==> ops == [NoTrainsOp()]
    // otherwise the chart comes first, then the rows
    ensures |vs| > 0 ==>
      |ops| >= |ChartOps(font, w, now, stamp)| && ops[..|ChartOps(font, w, now, stamp)|] == ChartOps(font, w, now, stamp)
    // then the trains' rows and nothing else
    ensures |vs| > 0 ==>
      |ops| == |ChartOps(font, w, now, stamp)| + Offset(Rows(font, vs, before, after, w), |vs|)
  {
    if |vs| == 0 then [NoTrainsOp()]
    else
      var chart := ChartOps(font, w, now, stamp);
      assert chart[0].Rect?;
      var rows := Rows(font, vs, before, after, w);
      FlattenLength(rows);
      chart + Flatten(rows)
  }

  /** After the chart, train i's row follows the rows of the trains before
      it, centred on row i of |vs| equal rows: the trains are drawn in the
      order given. */
  lemma FrameRowAt(font: FontTable, vs: seq<VisibleTrain>, w: Window, now: int, stamp: string,
                   before: int, after: int, i: nat)
    requires w.start < w.end && i < |vs|
    ensures var ops := FrameOpsFor(font, vs, w, now, stamp, before, after);
            var c := |ChartOps(font, w, now, stamp)|;
            var rows := Rows(font, vs, before, after, w);
            c <= |ops| && Offset(rows, i) <= Offset(rows, i + 1) <= |ops| - c
            && ops[c..][Offset(rows, i)..Offset(rows, i + 1)]
               == RowOps(font, vs[i], RowCenter(i, RowHeight(|vs|)), before, after, w)
  {
    var chart := ChartOps(font, w, now, stamp);
    var rows := Rows(font, vs, before, after, w);
    FlattenRowAt(rows, i);
    assert FrameOpsFor(font, vs, w, now, stamp, before, after)[|chart|..] == Flatten(rows);
    assert rows[i] == RowOps(font, vs[i], RowCenter(i, RowHeight(|vs|)), before, after, w);
  }

  /** The time axis: row CHART_BOTTOM black across the canvas. */
  predicate AxisBlack(c: Raster)
    requires IsCanvas(c)
  {
    forall x :: 0 <= x < WIDTH ==> c[CHART_BOTTOM][x] == Black
  }

  /** An operation that cannot put white on the axis row: anything drawn in
      black, the dotted grid lines, and anything else whose rows end above
      the axis. */
  predicate SparesAxis(op: DrawOp)
  {
    match op
    case Rect(_, _, _, y2, color) => color == Black || y2 <= CHART_BOTTOM
    case Checkerboard(_, _, _, y2) => y2 <= CHART_BOTTOM
    case HLine(_, _, _, color) => color == Black
    case VLine(_, _, _, color, _) => color == Black
    case GridLine(_, _, _) => true
    case Text(_, y, _, color, _, scale) => color == Black || y + CHAR_HEIGHT * scale <= CHART_BOTTOM
  }

  predicate AllSpareAxis(ops: seq<DrawOp>)
  {
    forall i :: 0 <= i < |ops| ==> SparesAxis(ops[i])
  }

  /** An operation that spares the axis keeps a black axis black. */
  lemma ApplySparesAxis(font: FontTable, c: Raster, op: DrawOp)
    requires IsCanvas(c) && GlyphsFit(font) && AxisBlack(c) && SparesAxis(op)
    ensures AxisBlack(Apply(font, c, op))
  {
    if op.Text? {
      TextLeavesRowsBelow(font, c, op.x, op.y, op.text, op.color, op.anchor, op.scale);
    }
  }

  /** So does any run of such operations. */
  lemma {:induction false} RenderSparesAxis(font: FontTable, c: Raster, ops: seq<DrawOp>)
    requires IsCanvas(c) && GlyphsFit(font) && AxisBlack(c) && AllSpareAxis(ops)
    ensures AxisBlack(Render(font, c, ops))
    decreases |ops|
  {
    if |ops| > 0 {
      ApplySparesAxis(font, c, ops[0]);
      RenderSparesAxis(font, Apply(font, c, ops[0]), ops[1..]);
    }
  }

  /** The half-hour markers are grid lines and black labels. */
  lemma {:induction false} MarkersSpareAxis(w: Window, t: int)
    requires w.start < w.end
    ensures AllSpareAxis(MarkersFrom(w, t))
    decreases w.end - t
  {
    if t <= w.end {
      MarkersSpareAxis(w, t + HALF_HOUR);
    }
  }

  /** Bar k's station codes are black boxes and white codes one text line tall. */
  lemma CodeStepSparesAxis(font: FontTable, placed: seq<Placed>, k: nat, y: int)
    requires k < |placed| && y + CHAR_HEIGHT <= CHART_BOTTOM
    ensures AllSpareAxis(CodeStep(font, placed, k, y))
  {
  }

  lemma {:induction false} CodesSpareAxis(font: FontTable, placed: seq<Placed>, k: nat, yCenter: int)
    requires BarBottom(yCenter) <= CHART_BOTTOM
    ensures AllSpareAxis(CodeOpsFrom(font, placed, k, BarTop(yCenter) + 2))
    decreases |placed| - k
  {
    var y := BarTop(yCenter) + 2;
    if k < |placed| {
      CodeStepSparesAxis(font, placed, k, y);
      CodesSpareAxis(font, placed, k + 1, yCenter);
      ConcatSparesAxis(CodeStep(font, placed, k, y), CodeOpsFrom(font, placed, k + 1, y));
    }
  }

  /** The time labels are black text on white patches that end above the bar. */
  lemma LabelsSpareAxis(labels: seq<Label>, keep: seq<bool>, y: int)
    requires |keep| == |labels| && y + CHAR_HEIGHT + 1 <= CHART_BOTTOM
    ensures AllSpareAxis(LabelOpsFrom(labels, keep, 0, y))
  {
    var ops := LabelOpsFrom(labels, keep, 0, y);
    forall i | 0 <= i < |ops|
      ensures SparesAxis(ops[i])
    {
      assert ops[i] in ops;
      var j :| 0 <= j < |labels| && keep[j] && (ops[i] == LabelPatch(labels, j, y) || ops[i] == LabelTextOp(labels, j, y));
    }
  }

  lemma ConcatSparesAxis(a: seq<DrawOp>, b: seq<DrawOp>)
    requires AllSpareAxis(a) && AllSpareAxis(b)
    ensures AllSpareAxis(a + b)
  {
  }

  /** The bars are black. */
  lemma BarsSpareAxis(placed: seq<Placed>, yCenter: int)
    ensures AllSpareAxis(BarOps(placed, yCenter))
  {
  }

  /** The buffers end with the bar. */
  lemma BuffersSpareAxis(placed: seq<Placed>, yCenter: int, before: int, after: int, w: Window)
    requires w.start < w.end && BarBottom(yCenter) <= CHART_BOTTOM
    ensures AllSpareAxis(BufferOps(placed, yCenter, before, after, w))
  {
  }

  /** The name's white text ends two rows above the bar's bottom. */
  lemma NameSparesAxis(font: FontTable, t: Train, placed: seq<Placed>, yCenter: int)
    requires |placed| > 0 && BarBottom(yCenter) <= CHART_BOTTOM
    ensures SparesAxis(NameOp(font, t, placed, yCenter))
  {
  }

  lemma PartsSpareAxis(a: seq<DrawOp>, b: seq<DrawOp>, c: seq<DrawOp>, d: seq<DrawOp>, e: DrawOp)
    requires AllSpareAxis(a) && AllSpareAxis(b) && AllSpareAxis(c) && AllSpareAxis(d) && SparesAxis(e)
    ensures AllSpareAxis(Assemble(a, b, c, d, e))
  {
    assert Assemble(a, b, c, d, e) == a + b + c + d + [e];
  }

  /** A row whose bar ends at or above the axis spares the axis: its bars
      are black, and its buffers, labels, codes and name all end above the
      bar's bottom. */
  lemma RowSparesAxis(font: FontTable, v: VisibleTrain, yCenter: int, before: int, after: int, w: Window)
    requires w.start < w.end && BarBottom(yCenter) <= CHART_BOTTOM
    ensures AllSpareAxis(RowOps(font, v, yCenter, before, after, w))
  {
    var placed := RowPlaced(v, w);
    if |placed| > 0 {
      BlockSparesAxis(placed, yCenter, before, after, w);
      RowLabelsSpareAxis(font, placed, yCenter, w.end);
      RowCodesSpareAxis(font, placed, yCenter);
      NameSparesAxis(font, v.train, placed, yCenter);
      PartsSpareAxis(BarOps(placed, yCenter), BufferOps(placed, yCenter, before, after, w),
                     RowLabelOps(font, placed, yCenter, w.end), RowCodeOps(font, placed, yCenter),
                     NameOp(font, v.train, placed, yCenter));
    }
  }

  /** The bars and buffers of a row whose bar ends at or above the axis. */
  lemma BlockSparesAxis(placed: seq<Placed>, yCenter: int, before: int, after: int, w: Window)
    requires w.start < w.end && BarBottom(yCenter) <= CHART_BOTTOM
    ensures AllSpareAxis(BarOps(placed, yCenter)) && AllSpareAxis(BufferOps(placed, yCenter, before, after, w))
  {
    BarsSpareAxis(placed, yCenter);
    BuffersSpareAxis(placed, yCenter, before, after, w);
  }

  /** The time labels of a row whose bar ends at or above the axis. */
  lemma RowLabelsSpareAxis(font: FontTable, placed: seq<Placed>, yCenter: int, end: int)
    requires |placed| > 0 && BarBottom(yCenter) <= CHART_BOTTOM
    ensures AllSpareAxis(RowLabelOps(font, placed, yCenter, end))
  {
    var labels := TimeLabels(font, placed, end);
    LabelsSpareAxis(labels, GreedyKeep(labels), TimeRow(yCenter));
  }

  /** The station codes of a row whose bar ends at or above the axis. */
  lemma RowCodesSpareAxis(font: FontTable, placed: seq<Placed>, yCenter: int)
    requires BarBottom(yCenter) <= CHART_BOTTOM
    ensures AllSpareAxis(RowCodeOps(font, placed, yCenter))
  {
    CodesSpareAxis(font, placed, 0, yCenter);
  }

  lemma {:induction false} FlattenSparesAxis(rows: seq<seq<DrawOp>>)
    requires forall i :: 0 <= i < |rows| ==> AllSpareAxis(rows[i])
    ensures AllSpareAxis(Flatten(rows))
    decreases |rows|
  {
    if |rows| > 0 {
      FlattenSparesAxis(rows[..|rows| - 1]);
    }
  }

  /** The rows' bars end no lower than the last row's. */
  lemma BarsAboveLast(n: int, i: int)
    requires 0 <= i < n
    ensures BarBottom(RowCenter(i, RowHeight(n))) <= BarBottom(RowCenter(n - 1, RowHeight(n)))
  {
    MulMono(i, n - 1, RowHeight(n));
  }

  /** With at most 11 rows each row is at least 40 pixels high, so the last
      bar ends above the axis. */
  lemma LastBarAboveAxis(n: int)
    requires 0 < n <= 11
    ensures BarBottom(RowCenter(n - 1, RowHeight(n))) <= CHART_BOTTOM
  {
    var h := RowHeight(n);
    if h < 40 {
      MulMono(h + 1, 40, n);
      assert false;
    }
    assert (n - 1) * h + h == n * h;
  }

  /** Every row spares the axis when the last row's bar ends at or above it. */
  lemma RowsSpareAxis(font: FontTable, vs: seq<VisibleTrain>, before: int, after: int, w: Window)
    requires w.start < w.end && |vs| > 0
    requires BarBottom(RowCenter(|vs| - 1, RowHeight(|vs|))) <= CHART_BOTTOM
    ensures AllSpareAxis(Flatten(Rows(font, vs, before, after, w)))
  {
    var rows := Rows(font, vs, before, after, w);
    forall i | 0 <= i < |rows|
      ensures AllSpareAxis(rows[i])
    {
      BarsAboveLast(|vs|, i);
      RowSparesAxis(font, vs[i], RowCenter(i, RowHeight(|vs|)), before, after, w);
    }
    FlattenSparesAxis(rows);
  }

  /** The stamp and then the axis line leave the axis row black. */
  lemma AxisDrawn(font: FontTable, stamp: string)
    ensures AxisBlack(Render(font, Blank(White), StampOps(font, stamp) + [HLine(0, WIDTH, CHART_BOTTOM, Black)]))
  {
    var axis := HLine(0, WIDTH, CHART_BOTTOM, Black);
    RenderConcat(font, Blank(White), StampOps(font, stamp), [axis]);
    RenderOne(font, Render(font, Blank(White), StampOps(font, stamp)), axis);
  }

  /** The chart alone leaves the axis row black: the stamp, then the axis,
      then markers and the now line that spare it. */
  lemma ChartAxisBlack(font: FontTable, w: Window, now: int, stamp: string)
    requires w.start < w.end && GlyphsFit(font)
    ensures AxisBlack(Render(font, Blank(White), ChartOps(font, w, now, stamp)))
  {
    var head := StampOps(font, stamp) + [HLine(0, WIDTH, CHART_BOTTOM, Black)];
    var markers := MarkersFrom(w, w.start);
    assert ChartOps(font, w, now, stamp) == (head + markers) + [NowLine(w, now)];
    RenderConcat(font, Blank(White), head + markers, [NowLine(w, now)]);
    RenderConcat(font, Blank(White), head, markers);
    AxisDrawn(font, stamp);
    MarkersSpareAxis(w, w.start);
    var drawn := Render(font, Blank(White), head);
    RenderSparesAxis(font, drawn, markers);
    RenderSparesAxis(font, Render(font, drawn, markers), [NowLine(w, now)]);
  }

  /** Once the axis is drawn, nothing drawn after it covers it when the last
      row's bar ends at or above it and no glyph is taller than the font's
      rows: the image's axis row is black across the canvas. */
  lemma FrameAxisBlack(font: FontTable, vs: seq<VisibleTrain>, w: Window, now: int, stamp: string,
                       before: int, after: int)
    requires w.start < w.end && |vs| > 0 && GlyphsFit(font)
    requires BarBottom(RowCenter(|vs| - 1, RowHeight(|vs|))) <= CHART_BOTTOM
    ensures AxisBlack(Render(font, Blank(White), FrameOpsFor(font, vs, w, now, stamp, before, after)))
  {
    var chart := ChartOps(font, w, now, stamp);
    var rows := Flatten(Rows(font, vs, before, after, w));
    assert FrameOpsFor(font, vs, w, now, stamp, before, after) == chart + rows;
    RenderConcat(font, Blank(White), chart, rows);
    ChartAxisBlack(font, w, now, stamp);
    RowsSpareAxis(font, vs, before, after, w);
    RenderSparesAxis(font, Render(font, Blank(White), chart), rows);
  }

  /** The frame at instant `now`: the operations applied to a white canvas. */
  function CreateImage(font: FontTable, parse: Parser, trains: seq<Train>, now: int, stamp: string,
                       before: int, after: int): (img: Raster)
    ensures IsCanvas(img)
    // with no train to show, only the message is drawn: everything above it is white
    ensures |FilterTrainsInWindow(parse, trains, WindowAt(now).start, WindowAt(now).end, now)| == 0 ==>
      forall y, x :: OnCanvas(x, y) && y < HEIGHT / 2 - CHAR_HEIGHT * FONT_SCALE / 2 ==> img[y][x] == White
    // with up to 11 trains, and no glyph taller than the font's rows, nothing
    // drawn after the time axis covers it: its row stays black across the canvas
    ensures 0 < |FilterTrainsInWindow(parse, trains, WindowAt(now).start, WindowAt(now).end, now)| <= 11
            && GlyphsFit(font) ==>
      forall x :: 0 <= x < WIDTH ==> img[CHART_BOTTOM][x] == Black
  {
    var w := WindowAt(now);
    var vs := FilterTrainsInWindow(parse, trains, w.start, w.end, now);
    if |vs| == 0 then
      NoTrainsImageIsBlankAbove(font, w, now, stamp, before, after);
      Render(font, Blank(White), FrameOpsFor(font, vs, w, now, stamp, before, after))
    else if |vs| <= 11 && GlyphsFit(font) then
      LastBarAboveAxis(|vs|);
      FrameAxisBlack(font, vs, w, now, stamp, before, after);
      Render(font, Blank(White), FrameOpsFor(font, vs, w, now, stamp, before, after))
    else
      Render(font, Blank(White), FrameOpsFor(font, vs, w, now, stamp, before, after))
  }

  /** With no train to show, the image is the message alone: everything
      above the message's top row is white. */
  lemma NoTrainsImageIsBlankAbove(font: FontTable, w: Window, now: int, stamp: string, before: int, after: int)
    requires w.start < w.end
    ensures var img := Render(font, Blank(White), FrameOpsFor(font, [], w, now, stamp, before, after));
            forall y, x :: OnCanvas(x, y) && y < HEIGHT / 2 - CHAR_HEIGHT * FONT_SCALE / 2 ==> img[y][x] == White
  {
    assert FrameOpsFor(font, [], w, now, stamp, before, after) == [NoTrainsOp()];
    RenderOne(font, Blank(White), NoTrainsOp());
  }
}
