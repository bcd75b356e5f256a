/** Text on the canvas: a string is measured by summing its glyphs' advance
    widths plus one spacing pixel between characters, all multiplied by the
    scale, and drawn glyph by glyph from a start column fixed by its anchor. */
module Text {
  import opened Types
  import opened Font
  import opened Canvas

  const CHAR_SPACING := 1
  /** The larger scale, used for train names; times and codes use scale 1. */
  const FONT_SCALE := 2

  datatype Anchor = Left | Center | Right

  /** The width the measurement charges for one character at scale 1: its
      glyph's advance, or CHAR_WIDTH when the table lacks it. */
  function MeasuredWidth(font: FontTable, ch: char): int
  {
    if ch in font then font[ch].width else CHAR_WIDTH
  }

  /** The glyph widths of `text` at `scale`, without the spacing. */
  function MeasureSum(font: FontTable, text: string, scale: int): int
  {
    if |text| == 0 then 0 else MeasuredWidth(font, text[0]) * scale + MeasureSum(font, text[1..], scale)
  }

  /** The pixel width of `text` at `scale`: the empty text has none, one
      character is its table width (CHAR_WIDTH when the table lacks it)
      times the scale, and TextWidthConcat adds one spacing per join. */
  function GetTextWidth(font: FontTable, text: string, scale: int): (w: int)
    ensures |text| == 0 ==> w == 0
    ensures |text| == 1 ==> w == (if text[0] in font then font[text[0]].width else CHAR_WIDTH) * scale
  {
    if |text| == 0 then 0
    else
      assert |text| == 1 ==> MeasureSum(font, text[1..], scale) == 0 && (|text| - 1) * CHAR_SPACING * scale == 0;
      MeasureSum(font, text, scale) + (|text| - 1) * CHAR_SPACING * scale
  }

  lemma {:induction false} MeasureSumScales(font: FontTable, text: string, scale: int)
    ensures MeasureSum(font, text, scale) == scale * MeasureSum(font, text, 1)
    decreases |text|
  {
    if |text| > 0 {
      MeasureSumScales(font, text[1..], scale);
      var w := MeasuredWidth(font, text[0]);
      var rest := MeasureSum(font, text[1..], 1);
      assert w * scale + scale * rest == scale * (w + rest);
    }
  }

  /** Measuring at scale s gives s times the width at scale 1. */
  lemma TextWidthScales(font: FontTable, text: string, scale: int)
    ensures GetTextWidth(font, text, scale) == scale * GetTextWidth(font, text, 1)
  {
    if |text| > 0 {
      MeasureSumScales(font, text, scale);
      var m := MeasureSum(font, text, 1);
      assert scale * m + (|text| - 1) * scale == scale * (m + (|text| - 1));
    }
  }

  /** Every width at the larger scale is even, so centring it splits it exactly. */
  lemma LargeTextWidthIsEven(font: FontTable, text: string)
    ensures GetTextWidth(font, text, FONT_SCALE) % 2 == 0
  {
    TextWidthScales(font, text, FONT_SCALE);
  }

  lemma {:induction false} MeasureSumConcat(font: FontTable, a: string, b: string, scale: int)
    ensures MeasureSum(font, a + b, scale) == MeasureSum(font, a, scale) + MeasureSum(font, b, scale)
    decreases |a|
  {
    if |a| > 0 {
      assert (a + b)[0] == a[0];
      assert (a + b)[1..] == a[1..] + b;
      MeasureSumConcat(font, a[1..], b, scale);
    } else {
      assert a + b == b;
    }
  }

  /** Two non-empty texts side by side are as wide as the two texts plus one
      spacing between them. */
  lemma TextWidthConcat(font: FontTable, a: string, b: string, scale: int)
    requires |a| > 0 && |b| > 0
    ensures GetTextWidth(font, a + b, scale) ==
      GetTextWidth(font, a, scale) + CHAR_SPACING * scale + GetTextWidth(font, b, scale)
  {
    MeasureSumConcat(font, a, b, scale);
  }

  /** The glyph the renderer draws for `ch`: its own, else the space glyph. */
  function DrawnGlyph(font: FontTable, ch: char): Option<Glyph>
  {
    if ch in font then Some(font[ch]) else if ' ' in font then Some(font[' ']) else None
  }

  /** The columns the renderer advances after drawing `ch`, before spacing. */
  function CharAdvance(font: FontTable, ch: char, scale: int): int
  {
    match DrawnGlyph(font, ch)
    case Some(g) => g.width * scale
    case None => CHAR_WIDTH * scale
  }

  /** One character with its glyph's top-left corner at (x, y). */
  function DrawChar(font: FontTable, c: Raster, x: int, y: int, ch: char, color: Color, scale: int): (r: Raster)
    requires IsCanvas(c)
    ensures IsCanvas(r)
    ensures forall py, px :: OnCanvas(px, py) ==>
      r[py][px] == if DrawnGlyph(font, ch).Some? && InkAt(DrawnGlyph(font, ch).value.pixels, x, y, scale, px, py)
                   then color else c[py][px]
  {
    match DrawnGlyph(font, ch)
    case Some(g) => DrawGlyph(c, g.pixels, x, y, scale, color)
    case None => c
  }

  /** Glyph k of `text`, drawn in a run from column x, covers (px, py): its
      top-left corner is x plus the advance of the characters before it. */
  predicate GlyphInkAt(font: FontTable, text: string, k: int, x: int, y: int, scale: int, px: int, py: int)
    requires 0 <= k < |text|
  {
    && DrawnGlyph(font, text[k]).Some?
    && InkAt(DrawnGlyph(font, text[k]).value.pixels, x + RunAdvance(font, text[..k], scale), y, scale, px, py)
  }

  /** Some glyph of `text`, drawn in a run from column x, covers (px, py). */
  predicate RunInkAt(font: FontTable, text: string, x: int, y: int, scale: int, px: int, py: int)
  {
    exists k :: 0 <= k < |text| && GlyphInkAt(font, text, k, x, y, scale, px, py)
  }

  /** Glyph k of a run is glyph k - 1 of the run after the first character,
      started that character's advance further right. */
  lemma GlyphInkShift(font: FontTable, text: string, k: int, x: int, y: int, scale: int, px: int, py: int)
    requires 0 < k < |text|
    ensures GlyphInkAt(font, text, k, x, y, scale, px, py) <==>
      GlyphInkAt(font, text[1..], k - 1, x + CharAdvance(font, text[0], scale) + CHAR_SPACING * scale, y, scale, px, py)
  {
    assert text[..k][0] == text[0];
    assert text[..k][1..] == text[1..][..k - 1];
    assert text[1..][k - 1] == text[k];
  }

  /** A run covers a pixel exactly when its first glyph does or the rest of
      the run, started after the first character, does. */
  lemma {:induction false} RunInkUnfold(font: FontTable, text: string, x: int, y: int, scale: int, px: int, py: int)
    requires |text| > 0
    ensures RunInkAt(font, text, x, y, scale, px, py) <==>
      (DrawnGlyph(font, text[0]).Some? && InkAt(DrawnGlyph(font, text[0]).value.pixels, x, y, scale, px, py))
      || RunInkAt(font, text[1..], x + CharAdvance(font, text[0], scale) + CHAR_SPACING * scale, y, scale, px, py)
  {
    var x' := x + CharAdvance(font, text[0], scale) + CHAR_SPACING * scale;
    assert text[..0] == [];
    if RunInkAt(font, text, x, y, scale, px, py) {
      var k :| 0 <= k < |text| && GlyphInkAt(font, text, k, x, y, scale, px, py);
      if k > 0 {
        GlyphInkShift(font, text, k, x, y, scale, px, py);
        assert GlyphInkAt(font, text[1..], k - 1, x', y, scale, px, py);
      }
    }
    if RunInkAt(font, text[1..], x', y, scale, px, py) {
      var j :| 0 <= j < |text[1..]| && GlyphInkAt(font, text[1..], j, x', y, scale, px, py);
      GlyphInkShift(font, text, j + 1, x, y, scale, px, py);
      assert GlyphInkAt(font, text, j + 1, x, y, scale, px, py);
    }
    if DrawnGlyph(font, text[0]).Some? && InkAt(DrawnGlyph(font, text[0]).value.pixels, x, y, scale, px, py) {
      assert GlyphInkAt(font, text, 0, x, y, scale, px, py);
    }
  }

  lemma RunStep(font: FontTable, c: Raster, c': Raster, r: Raster, x: int, y: int, text: string, color: Color, scale: int)
    requires IsCanvas(c) && IsCanvas(c') && IsCanvas(r) && |text| > 0
    requires forall py, px :: OnCanvas(px, py) ==>
      c'[py][px] == if DrawnGlyph(font, text[0]).Some? && InkAt(DrawnGlyph(font, text[0]).value.pixels, x, y, scale, px, py)
                    then color else c[py][px]
    requires forall py, px :: OnCanvas(px, py) ==>
      r[py][px] == if RunInkAt(font, text[1..], x + CharAdvance(font, text[0], scale) + CHAR_SPACING * scale, y, scale, px, py)
                   then color else c'[py][px]
    ensures forall py, px :: OnCanvas(px, py) ==>
      r[py][px] == if RunInkAt(font, text, x, y, scale, px, py) then color else c[py][px]
  {
    forall py, px | OnCanvas(px, py)
      ensures r[py][px] == if RunInkAt(font, text, x, y, scale, px, py) then color else c[py][px]
    {
      RunInkUnfold(font, text, x, y, scale, px, py);
    }
  }

  /** Characters of `text` left to right from column x, each followed by its
      advance and one spacing. */
  function DrawRun(font: FontTable, c: Raster, x: int, y: int, text: string, color: Color, scale: int): (r: Raster)
    requires IsCanvas(c)
    ensures IsCanvas(r)
    // glyph k lands at x plus the advance of the k characters before it
    ensures forall py, px :: OnCanvas(px, py) ==>
      r[py][px] == if RunInkAt(font, text, x, y, scale, px, py) then color else c[py][px]
    // text only ever puts its own colour down
    ensures forall py, px :: OnCanvas(px, py) ==> r[py][px] == c[py][px] || r[py][px] == color
    // nothing above the text's top row changes
    ensures forall py, px :: OnCanvas(px, py) && py < y ==> r[py][px] == c[py][px]
    decreases |text|
  {
    if |text| == 0 then c
    else
      var c' := DrawChar(font, c, x, y, text[0], color, scale);
      var r := DrawRun(font, c', x + CharAdvance(font, text[0], scale) + CHAR_SPACING * scale, y, text[1..], color, scale);
      RunStep(font, c, c', r, x, y, text, color, scale);
      r
  }

  /** The first column of a text of width w anchored at x. */
  function TextStart(x: int, anchor: Anchor, w: int): (sx: int)
    // the span [sx, sx + w) starts at x, ends at x, or has x at its middle
    // (the left part is half the width, rounded down)
    ensures anchor == Left ==> sx == x
    ensures anchor == Right ==> sx + w == x
    ensures anchor == Center ==> 2 * (x - sx) <= w <= 2 * (x - sx) + 1
  {
    match anchor
    case Left => x
    case Center => x - w / 2
    case Right => x - w
  }

  /** `text` anchored at column x with its top at row y. */
  function DrawText(font: FontTable, c: Raster, x: int, y: int, text: string, color: Color,
                    anchor: Anchor, scale: int): (r: Raster)
    requires IsCanvas(c)
    ensures IsCanvas(r)
    // the run starts where the anchor puts a text of the measured width
    ensures forall py, px :: OnCanvas(px, py) ==>
      r[py][px] == if RunInkAt(font, text, TextStart(x, anchor, GetTextWidth(font, text, scale)), y, scale, px, py)
                   then color else c[py][px]
    ensures forall py, px :: OnCanvas(px, py) ==> r[py][px] == c[py][px] || r[py][px] == color
    ensures forall py, px :: OnCanvas(px, py) && py < y ==> r[py][px] == c[py][px]
  {
    DrawRun(font, c, TextStart(x, anchor, GetTextWidth(font, text, scale)), y, text, color, scale)
  }

  /** A run of glyphs no taller than CHAR_HEIGHT covers no pixel from
      CHAR_HEIGHT blocks below its top row on. */
  lemma RunInkAbove(font: FontTable, text: string, x: int, y: int, scale: int, px: int, py: int)
    requires GlyphsFit(font) && py >= y + CHAR_HEIGHT * scale
    ensures !RunInkAt(font, text, x, y, scale, px, py)
  {
    if RunInkAt(font, text, x, y, scale, px, py) {
      var k :| 0 <= k < |text| && GlyphInkAt(font, text, k, x, y, scale, px, py);
      var g := DrawnGlyph(font, text[k]).value;
      var d := py - y;
      assert |g.pixels| <= CHAR_HEIGHT;
      DivBounds(d, scale);
      MulMono(d / scale, CHAR_HEIGHT - 1, scale);
      assert false;
    }
  }

  /** Text in glyphs no taller than CHAR_HEIGHT leaves every row from
      CHAR_HEIGHT blocks below its top row on as it was. */
  lemma TextLeavesRowsBelow(font: FontTable, c: Raster, x: int, y: int, text: string, color: Color,
                            anchor: Anchor, scale: int)
    requires IsCanvas(c) && GlyphsFit(font)
    ensures var r := DrawText(font, c, x, y, text, color, anchor, scale);
            forall py, px :: OnCanvas(px, py) && py >= y + CHAR_HEIGHT * scale ==> r[py][px] == c[py][px]
  {
    var sx := TextStart(x, anchor, GetTextWidth(font, text, scale));
    forall py, px | OnCanvas(px, py) && py >= y + CHAR_HEIGHT * scale
      ensures DrawText(font, c, x, y, text, color, anchor, scale)[py][px] == c[py][px]
    {
      RunInkAbove(font, text, sx, y, scale, px, py);
    }
  }

  /** The columns the renderer actually advances over `text`, spacing included. */
  function RunAdvance(font: FontTable, text: string, scale: int): int
  {
    if |text| == 0 then 0
    else CharAdvance(font, text[0], scale) + CHAR_SPACING * scale + RunAdvance(font, text[1..], scale)
  }

  /** The space glyph is as wide as the measurement's fallback. */
  predicate StandardSpace(font: FontTable)
  {
    ' ' in font && font[' '].width == CHAR_WIDTH
  }

  /** When every character has a glyph, or the space glyph substituted for a
      missing one is CHAR_WIDTH wide, drawing advances over exactly the
      measured width plus one trailing spacing. */
  lemma {:induction false} AdvanceMatchesWidth(font: FontTable, text: string, scale: int)
    requires |text| > 0
    requires forall i :: 0 <= i < |text| ==> text[i] in font || StandardSpace(font)
    ensures RunAdvance(font, text, scale) == GetTextWidth(font, text, scale) + CHAR_SPACING * scale
    decreases |text|
  {
    var n := |text|;
    var rest := text[1..];
    assert CharAdvance(font, text[0], scale) == MeasuredWidth(font, text[0]) * scale;
    assert MeasureSum(font, text, scale) == MeasuredWidth(font, text[0]) * scale + MeasureSum(font, rest, scale);
    if n > 1 {
      AdvanceMatchesWidth(font, rest, scale);
      assert RunAdvance(font, rest, scale) == MeasureSum(font, rest, scale) + (n - 2) * scale + scale;
      assert (n - 2) * scale + scale + scale == (n - 1) * scale + scale;
    } else {
      assert rest == [];
    }
  }

  /** Otherwise the two disagree: a character missing from the table is
      measured as CHAR_WIDTH but drawn with the space glyph's advance. */
  lemma AdvanceDiffersForMissingChar(font: FontTable, ch: char, scale: int)
    requires ch !in font && ' ' in font && font[' '].width != CHAR_WIDTH && scale != 0
    ensures CharAdvance(font, ch, scale) != MeasuredWidth(font, ch) * scale
  {
    var w := font[' '].width;
    assert (w - CHAR_WIDTH) * scale != 0;
    assert CharAdvance(font, ch, scale) - MeasuredWidth(font, ch) * scale == (w - CHAR_WIDTH) * scale;
  }

  /** When the font file has no space glyph, the synthesised one is
      CHAR_WIDTH wide, so drawing and measuring agree on every text. */
  lemma LoadedSpaceIsStandard(recs: seq<GlyphRecord>)
    requires ' ' !in ParseRecords(recs)
    ensures StandardSpace(LoadFont(recs))
  {
  }
}
