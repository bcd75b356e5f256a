# Train departure board: frame layout and route matching, in Dafny

This project models the core of a small Amtrak departure board (TyOverby/trains).
The board's renderer draws an 800×480 one-bit e-ink frame. A three-hour time
axis starts at the current half hour. Each upcoming train gets one row, with a
black bar per segment between consecutive requested stations. Time labels sit
above the bars, and the bars carry the station codes and the train's name. The
route matcher decides which trains connect consecutive requested stations, and
which segments each of them covers.

The model is functional. A canvas is a sequence of 480 rows of 800 colours.
Every drawing primitive is a pure, clipped region fill with a pointwise
contract. A frame is a list of drawing operations (`Frame.DrawOp`), folded over
a white canvas by `Frame.Render`. Instants are whole seconds of local
wall-clock time, and every coordinate is exact integer arithmetic.

Modules, one per component:

- `Types` — trains, segments and station stops, shared by the matcher and the renderer.
- `Font` — font table normalisation: aliasing upper-case letters, synthesising five glyphs.
- `Canvas` — the raster and the clipped primitives: rectangle, checkerboard, lines, glyph.
- `Text` — text width, glyph drawing and anchoring.
- `TimeWindow` — rounding to the half hour, the window, the time-to-column map, time labels.
- `Schedule` — segment times, the visibility filter and the stable sort by first departure.
- `Layout` — rows, bar placement, buffers, time-label candidates, the greedy label resolver, station codes, train names.
- `Frame` — the complete display list of a frame and its rendering.
- `Matching` — segments from a train's stop list, connecting trains, `format_time`.

## Model

| member | source | states |
|---|---|---|
| `Font.ParseRecords` | visualize.py:33-43 | A character is in the table iff some record has it; for a repeated character the last record wins; a glyph's pixels are set exactly at the 'X' positions of its rows |
| `Font.AliasAll` | visualize.py:45-49 | File glyphs are kept; a glyph is added only for an upper-case letter that is absent while its lower-case letter is present, as a copy of that glyph; every such letter is added |
| `Font.Synthesise` | visualize.py:51-132 | Space, ':', '-', '>' and '#' are always present afterwards; a present glyph is never replaced; an absent one receives its fixed 7-wide glyph; nothing else is added |
| `Font.Normalise` | visualize.py:45-132 | The whole normalisation: the five glyphs present, file glyphs untouched, an upper-case letter present iff it or its lower-case letter was in the file, nothing else added |
| `Canvas.DrawRect` | visualize.py:199-203 | Exactly the pixels of the rectangle clipped to the canvas take the colour; all others are unchanged |
| `Canvas.DrawCheckerboard` | visualize.py:206-216 | Inside the clipped rectangle a pixel is black iff it is on the rectangle's own border or x+y is even; outside it, nothing changes |
| `Canvas.DrawHLine` | visualize.py:219-223 | Only row y between x1 and x2 changes, and only when y is on the canvas |
| `Canvas.DrawVLine` | visualize.py:226-232 | Only column x between y1 and y2 changes, only when x is on the canvas; a dashed line skips the rows whose (y div 4) is odd |
| `Canvas.DrawGridLine` | visualize.py:356-358 | The light grid line: in column x, the rows of [y1, y2) divisible by 3 turn black; nothing else changes |
| `Canvas.DrawGlyph` | visualize.py:155-166 | A pixel takes the colour iff it lies in the scaled block of a set glyph pixel; all others are unchanged |
| `Canvas.InkIsUnionOfBlocks` | visualize.py:155-166 | The inked pixels are exactly the union of the scale×scale blocks at (x + col·scale, y + row·scale) of the set glyph pixels |
| `Text.DrawChar` | visualize.py:146-168 | A character missing from the table is drawn with the space glyph; with no space glyph either, nothing is drawn |
| `Text.TextWidthScales` | visualize.py:185-196 | The width at scale s is s times the width at scale 1 |
| `Text.LargeTextWidthIsEven` | visualize.py:185-196 | Every width at the name scale (2) is even |
| `Text.TextWidthConcat` | visualize.py:185-196 | The width of two joined non-empty texts is the sum of their widths plus one spacing of `scale` pixels |
| `Text.GetTextWidth` | visualize.py:185-196 | The empty text is 0 wide; one character is its table width, or 7 when the table lacks it, times the scale |
| `Text.TextStart` | visualize.py:171-178 | A left-anchored text starts at x; a right-anchored one ends at x; a centred one has x at its middle, with the left part half the width rounded down |
| `Text.DrawText` | visualize.py:171-182 | A pixel takes the colour iff some glyph of the text, drawn from the anchored start column (measured width, centre rounding down), covers it; every other pixel is unchanged, so nothing above the top row changes |
| `Text.TextLeavesRowsBelow` | visualize.py:155-182 | When no glyph has more than 11 rows, a text drawn at row y changes nothing at or below row y + 11·scale |
| `Text.DrawRun` | visualize.py:179-182 | Glyph k of the text is drawn at x plus the advance of the k characters before it, each followed by one spacing; a pixel takes the colour iff some glyph covers it |
| `Text.AdvanceMatchesWidth` | visualize.py:146-196 | If every character has a glyph, or the substituted space glyph is 7 wide, drawing advances by exactly the measured width plus one trailing spacing |
| `Text.AdvanceDiffersForMissingChar` | visualize.py:146-196 | For a missing character and a space glyph not 7 wide, the drawn advance differs from the measured one |
| `Text.LoadedSpaceIsStandard` | visualize.py:51-56 | When the font file has no space glyph, the synthesised one makes drawing and measuring agree |
| `TimeWindow.RoundDownTo30Min` | visualize.py:235-239 | The result is at most t and less than 30 minutes before it, has zero seconds and minute 0 or 30, and keeps t's hour |
| `TimeWindow.RoundDownOnBoundary` | visualize.py:235-239 | The rounded instant is always a whole number of half hours |
| `TimeWindow.RoundDownIsLatestBoundary` | visualize.py:235-239 | The result is a half-hour boundary, and every half-hour boundary not after t is at most the result |
| `TimeWindow.RoundDownIdempotent` | visualize.py:235-239 | Rounding a rounded instant changes nothing |
| `TimeWindow.WindowAt` | visualize.py:316-317 | The window starts on a half-hour boundary at most 30 minutes before now and lasts exactly three hours |
| `TimeWindow.TimeToX` | visualize.py:293-298 | The window's start maps to column 50 and its end to 760; every instant inside the window maps into [50, 760] |
| `TimeWindow.TimeToXMonotone` | visualize.py:293-298 | A later instant never maps to a column further left |
| `TimeWindow.FormatTimeLabel` | visualize.py:301-303 | A label has 4 or 5 characters, with ':' third from the end; it has 4 exactly when the 12-hour hour is below 10 |
| `TimeWindow.TimeLabelRoundTrip` | visualize.py:301-303 | Reading a label back gives the 12-hour hour (12 for 0) and the minute it was made from |
| `Schedule.TimeText` | visualize.py:252-256 | The actual time is used when present and non-empty; otherwise the scheduled one |
| `Schedule.ParseTime` | visualize.py:242-249 | A missing or empty time is no time; any other text is left to the parser |
| `Schedule.TimedSegments` | visualize.py:272-280 | Exactly the segments whose two times both parse are kept, with their instants; some segment is kept iff some segment parses |
| `Schedule.TimedSegmentsConcat` | visualize.py:272-280 | Dropping segments keeps the order of the rest: the timed segments of two lists side by side are those of the first followed by those of the second |
| `Schedule.TimedSegmentsSingle` | visualize.py:272-280 | A single segment is kept, with its two instants, exactly when both of its times parse |
| `Schedule.CollectMembers` | visualize.py:261-287 | A train is collected iff it has segments, its first segment's departure parses and lies in [now, end], and some segment parses in full |
| `Schedule.SortFacts` | visualize.py:289 | The sort orders by first departure, permutes its input, and keeps input order among equal departures |
| `Schedule.FilterTrainsInWindow` | visualize.py:259-290 | The shown trains are exactly the visible ones, sorted by first departure, with trains that depart together in input order |
| `Schedule.DepartedTrainExcluded` | visualize.py:270 | A train whose first departure is before now is never shown |
| `Layout.RowHeight` | visualize.py:327-328 | The n rows fill the 440 chart rows with fewer than n rows to spare |
| `Layout.RowCentersInChart` | visualize.py:372 | Every row's centre lies inside the chart |
| `Layout.PlaceSegment` | visualize.py:395-406 | A segment is skipped iff it arrives by the window's start or departs at or after its end; a bar starts at the departure's column, or at 50 when the segment departed before the window; it ends at the arrival's column, or at column 800 when the arrival reaches the window's end; a bar never ends left of its start |
| `Layout.PlaceSegments` | visualize.py:391-406 | There are never more bars than segments |
| `Layout.PlaceSegmentsMembers` | visualize.py:391-406 | Every bar is the bar of some segment, and every segment reaching into the window has its bar |
| `Layout.PlaceSegmentsConcat` | visualize.py:391-406 | Bars come in segment order: the bars of two lists of segments side by side are those of the first followed by those of the second |
| `Layout.PlaceSegmentsSingle` | visualize.py:391-406 | A single segment gives its bar when it reaches into the window, and nothing otherwise |
| `Layout.TwoSegmentExample` | visualize.py:395-406 | 08:00-08:20 and 08:25-09:10 in the window 07:30-10:30 give bars 168-247 and 266-444, with their gap centred on column 256 |
| `Layout.BeforeBuffer` | visualize.py:422-427 | A before-buffer is drawn iff its length is positive and the column `before` minutes ahead of the first departure (50 at the earliest) lies left of the block; it then runs from that column exactly to the block's left edge; a block starting at column 50 has none |
| `Layout.AfterBuffer` | visualize.py:429-437 | An after-buffer is drawn iff its length is positive, the last bar ends before column 800, and the column `after` minutes past the last arrival (760 at the latest) lies right of the block; it then runs from the block's right edge to that column |
| `Layout.DepartureLabel` | visualize.py:449-453 | The first departure label starts at the first bar's left edge and is as wide as its text |
| `Layout.GapLabel` | visualize.py:455-461 | An intermediate arrival label is centred on the gap between two bars |
| `Layout.ArrivalLabel` | visualize.py:463-467 | The last arrival label ends at the last bar's right edge |
| `Layout.GapLabels` | visualize.py:455-461 | One label per gap between consecutive bars, the j-th being bar j's arrival centred on the gap after it |
| `Layout.FinalLabel` | visualize.py:463-467 | The last bar's arrival label is a candidate exactly when the arrival is not after the window's end, and is then the only one |
| `Layout.TimeLabels` | visualize.py:443-467 | A row has one candidate per bar, plus one more exactly when the last arrival is inside the window; the first candidate is the departure label |
| `Layout.CollectTimeLabels` | visualize.py:443-467 | The renderer's bar-by-bar loop collects exactly the departure label, then the gap labels in bar order, then the final arrival when it is inside the window |
| `Layout.ResolveCollisions` | visualize.py:470-483 | A label is kept iff its left edge is more than 4 columns right of the last kept label's right edge (-1000 before any); the first label is kept iff its left edge exceeds -996 |
| `Layout.GreedyKeep` | visualize.py:470-483 | The same selection as a function: it satisfies the greedy rule, and the loop computes exactly it |
| `Layout.GreedyUnique` | visualize.py:470-483 | The greedy rule determines the selection completely |
| `Layout.KeptLabelsSeparated` | visualize.py:470-483 | Any two kept labels are more than 4 columns apart, so drawn labels never overlap |
| `Layout.CrowdedSecondLabelDropped` | visualize.py:470-483 | Of two labels only 3 columns apart, only the first is drawn |
| `Layout.LabelAnchor` | visualize.py:477-482 | The first candidate is drawn left-anchored at its left edge; no label is right-anchored; a left-anchored label is drawn at its left edge, a centred one between its edges; a label is left-anchored iff it has the first candidate's left edge and text |
| `Layout.LabelTextStartsAtLeft` | visualize.py:449-482 | Every time label candidate, drawn at its anchor with its measured width, starts exactly at its own left edge |
| `Layout.RouteText` | visualize.py:527-529 | A missing or empty route reads "Train"; "Northeast Regional" becomes "NE Regional"; any other route is kept |
| `Layout.TrainLabel` | visualize.py:530-531 | The name is the route text, one space, then the train number |
| `Layout.TrainLabelPlacement` | visualize.py:533-545 | Left-aligned at block_x1 + 8 if centring would pass column 800; else right-aligned at block_x2 - 8 if it would pass column 0; otherwise centred at the block's middle column, where it stays within [0, 800] |
| `Layout.CenteredTrainLabelOnCanvas` | visualize.py:532-545 | A centred train name lies wholly on the canvas |
| `Layout.CodeBackground` | visualize.py:511-518 | An intermediate code's black box is centred on the gap, starts 2 columns left of the centred text and ends past its last column, so it covers the code |
| `Frame.RenderConcat` | visualize.py:306-547 | Drawing one list of operations and then another is drawing their concatenation |
| `Frame.StampOps` | visualize.py:338-345 | The stamp is right-aligned at column 796, row 4, on a white box that covers its columns and rows |
| `Frame.MarkersFrom` | visualize.py:351-364 | Markers start with the grid line at the given half hour's column; there is one grid line and one label for every half hour from there up to the window's end, 2·((end − t) div 30 min + 1) operations, and none once past the end |
| `Frame.MarkerAt` | visualize.py:351-364 | Operations 2i and 2i+1 are the grid line of the i-th half hour, at its column from the chart's top to the axis, and then that half hour's label, centred on the line 8 rows below the axis at the larger scale |
| `Frame.MarkerLabel` | visualize.py:360-362 | Each grid line is followed by its half hour's time label, centred on the line 8 rows below the axis at the larger scale |
| `Frame.MarkerColumns` | visualize.py:351-364 | A three-hour window has seven grid lines, at columns 50, 168, 286, 405, 523, 641 and 760, whatever its start |
| `Frame.NowLineInFirstHalfHour` | visualize.py:367-368 | The dashed now line falls between columns 50 and 168 |
| `Frame.BarOps` | visualize.py:409-411 | One black rectangle per bar, across the bar's rows |
| `Frame.BufferOps` | visualize.py:414-437 | Buffers are checkerboards on the bar's rows that touch the block only at its edges; one is drawn for each buffer that exists, across the buffer's columns |
| `Frame.LabelOpsFrom` | visualize.py:470-483 | Only kept labels draw anything; every kept label draws both its white patch and its text; two operations per kept label |
| `Frame.LabelAt` | visualize.py:470-483 | Operations 2i and 2i+1 are the white patch and then the text of the i-th kept label, so labels are drawn in candidate order, each patch directly before its text |
| `Frame.LabelPairOps` | visualize.py:474-482 | A kept label is a white patch one pixel larger than the label on every side, then its text, black at scale 1, at the label's anchor |
| `Frame.CodeStep` | visualize.py:493-523 | Bar k draws the first station's code iff it is the first bar and wide enough, the last station's iff it is the last bar and wide enough, and a box and code on the gap after it, in that order: the end codes first, the gap's box and then its code last; only end codes are left- or right-anchored |
| `Frame.CodeOpsFrom` | visualize.py:485-523 | The first station's code, when drawn, is the first operation and the last station's, when drawn, the last; gap j's box and code are operations L+2j and L+2j+1, L being 1 when the first station's code is drawn and 0 otherwise; each end code occurs iff its bar is wide enough; two operations per gap and one per end code drawn, nothing else |
| `Frame.NameOp` | visualize.py:525-545 | The name is drawn in white at the larger scale, at the column and alignment `TrainLabelPlacement` gives for the block, on the bar's lower text line |
| `Frame.RowOps` | visualize.py:391-545 | A train none of whose segments reaches into the window draws nothing in its row |
| `Frame.RowOpsParts` | visualize.py:391-545 | A row with bars draws, in order: one bar per placed segment, then the buffers, then the kept time labels, then the station codes, and the train's name last |
| `Frame.FrameOpsFor` | visualize.py:321-372 | With no train the frame is the centred message alone, and only then; otherwise the stamp, axis, markers and now line come first, then the rows and nothing else |
| `Frame.FrameRowAt` | visualize.py:370-372 | Row i of the frame, after the chart, is exactly train i's operations at row centre i |
| `Frame.CreateImage` | visualize.py:306-372 | The frame is a full canvas; with no train to show, every pixel above the message's top row is white; with one to eleven trains and no glyph taller than the font's 11 rows, the axis row 440 is black across the whole canvas |
| `Frame.FrameAxisBlack` | visualize.py:346-372 | When the lowest bar ends above the axis, nothing drawn after the axis line whitens any pixel of row 440 |
| `Frame.ChartAxisBlack` | visualize.py:336-368 | After the stamp, the axis line, the markers and the now line, row 440 is black across the canvas: grid lines stop above it and the marker labels start below it |
| `Frame.RowSparesAxis` | visualize.py:391-545 | Every operation of a row whose bars end above the axis is black or lies wholly above row 440 |
| `Frame.LastBarAboveAxis` | visualize.py:326-329 | With at most eleven trains the rows are at least 40 high, so the lowest bar ends above the axis |
| `Frame.ApplySparesAxis` | visualize.py:199-232 | A black operation, or one confined to rows above the axis, keeps the axis row black |
| `Frame.NoTrainsImageIsBlankAbove` | visualize.py:321-324 | With no train, every pixel above the message's top row (229) is white |
| `Matching.FirstIndex` | main.py:60-67 | The index of a station is the first stop with its code; absent iff no stop has it |
| `Matching.CoveredPairs` | main.py:69-84 | The covered pairs are listed in increasing order, exactly those whose stations both occur with the first earlier than the second |
| `Matching.BuildSegments` | main.py:69-101 | One segment per covered pair, in pair order, each with the requested codes, the departure side's scheduled and actual departure, and the arrival side's scheduled and actual arrival |
| `Matching.SegmentCountBound` | main.py:70-71 | A train has at most one segment fewer than the number of requested stations |
| `Matching.RepeatedStationNotCovered` | main.py:79-84 | A station requested twice in a row never forms a segment |
| `Matching.CoversMeansOrderedStops` | main.py:64-84 | A pair is covered iff the first stop of the earlier station comes before the first stop of the later one |
| `Matching.ConnectingTrains` | main.py:37-113 | Fewer than two stations give no trains; a fetched train is in the result iff it has at least one segment |
| `Matching.ConnectingMembers` | main.py:53-111 | Every train kept has a segment and is a fetched train with the segments it covers; every fetched train covering some pair is kept |
| `Matching.SecondField` | main.py:121 | The text taken is what lies between the first 'T' and the next 'T' or the end |
| `Matching.BeforeLast` | main.py:122-125 | The text before the last occurrence of the separator, or all of it when the separator is absent |
| `Matching.TrimOffset` | main.py:122-125 | The kept time part is a prefix that ends just before the last '-' if there is one, else just before the last '+', else is the whole text |
| `Matching.TrimSignedOffset` | main.py:122-125 | A time containing no sign, followed by a signed offset, loses exactly the offset, for either sign |
| `Matching.FormatTime` | main.py:116-127 | "N/A" for a missing or empty time; unchanged without a 'T'; otherwise a prefix of the text after the first 'T', with no 'T', of length the smaller of 5 and the offset's start (the last '-', else the last '+') |
| `Matching.FormatTimeOfTimestamp` | main.py:116-127 | A timestamp of the form date 'T' HH:MM seconds followed by a signed offset is trimmed to exactly HH:MM |

## Left out

- The HTTP server (server.py), including its cache and background refresh. It calls `create_image` with a `cache_age_seconds` argument that `create_image` does not accept (server.py:119-121 against visualize.py:306-307). That call would fail, and it is not modelled.
- Fetching stations and trains over the network (main.py:11-34 and main.py:42-58). `Matching.ConnectingTrains` takes the trains that were fetched, in some order. The order of the set of train identifiers is not modelled, and neither is the early return when no station could be fetched.
- `parse_time` (visualize.py:242-249) is the parameter `parse` of `Schedule`. It yields a local instant or nothing. ISO-8601 parsing, time zones and daylight-saving changes are not modelled.
- `TimeWindow.TimeToX`: exact integer arithmetic, truncated toward zero like Python's `int()`. The source computes a floating-point ratio, which could round differently when the exact result is an integer.
- `Font.ParseRecords`: reading the font JSON file (visualize.py:30-31) is left out. The model starts from the list of parsed records.
- `Font.LoadFont` carries no contract of its own. Its contract is that of `Font.Normalise` applied to `Font.ParseRecords`.
- PIL: creating, saving and `putpixel`. The canvas is a sequence of rows. The grid loop's `putpixel` would raise for a column off the canvas; the markers always fall between columns 50 and 760, so that never happens, and `Canvas.DrawGridLine` clips instead.
- `Frame.StampOps`: the generation stamp (visualize.py:338) is a parameter string, because `strftime` with `%b` depends on the locale.
- `TimeWindow.FormatTimeLabel` builds `%-I:%M` from the instant's hour and minute directly.
- Microseconds: instants are whole seconds.
- The command-line entry points, `display_trains`, `build_json_output` and `save_json` (main.py:130-190, visualize.py:550-573). They are I/O and printing only.
- The computation of the longest segment (visualize.py:375-386) is left out: its result is never used.
- `Layout.TrainLabel`: a train number that is JSON null prints as "None", as the Python f-string does. A missing `train_num` key cannot occur, because the matcher always writes one.
- `Frame.CreateImage`: the black axis row is stated only for one to eleven trains, where every row is at least 40 pixels high, and for a font whose glyphs have at most 11 rows. Somewhat larger counts still keep the lowest bar above the axis, but the model makes no claim for them. A taller glyph can reach below its text's rows.
- `Frame.CodeOpsFrom`: that only the end codes are left- or right-anchored is stated bar by bar by `Frame.CodeStep`, not for the row's whole list of codes.
