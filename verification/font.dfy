/** The bitmap font table: glyph records as read from the font file are turned
    into boolean pixel matrices, upper-case letters borrow the glyph of their
    lower-case letter, and five punctuation glyphs the layout relies on are
    synthesised when the file lacks them. */
module Font {
  import opened Types
  import GlyphArt

  /** Advance charged for a character the table does not hold, and the size
      of every synthesised glyph. */
  const CHAR_WIDTH := 7
  const CHAR_HEIGHT := 11

  datatype Glyph = Glyph(pixels: seq<seq<bool>>, width: int)

  /** A record of the font file: a character, its rows of 'X' (set) and any
      other character (unset), and its declared advance width. */
  datatype GlyphRecord = GlyphRecord(ch: char, rows: seq<string>, width: int)

  type FontTable = map<char, Glyph>

  /** Every glyph of the table is at most CHAR_HEIGHT rows tall, as the
      font file's glyphs and the synthesised ones are. */
  predicate GlyphsFit(font: FontTable)
  {
    forall ch :: ch in font ==> |font[ch].pixels| <= CHAR_HEIGHT
  }

  /** A marker row becomes a boolean row: exactly the 'X' positions are set. */
  function ParseRow(row: string): (r: seq<bool>)
    ensures |r| == |row|
    ensures forall i :: 0 <= i < |row| ==> (r[i] <==> row[i] == 'X')
  {
    if |row| == 0 then [] else [row[0] == 'X'] + ParseRow(row[1..])
  }

  function ParseRows(rows: seq<string>): (r: seq<seq<bool>>)
    ensures |r| == |rows|
    ensures forall i :: 0 <= i < |rows| ==> r[i] == ParseRow(rows[i])
  {
    if |rows| == 0 then [] else [ParseRow(rows[0])] + ParseRows(rows[1..])
  }

  function ParseGlyph(rec: GlyphRecord): Glyph
  {
    Glyph(ParseRows(rec.rows), rec.width)
  }

  /** The record is the last one in `recs` for its character. */
  predicate LastFor(recs: seq<GlyphRecord>, i: int)
    requires 0 <= i < |recs|
  {
    forall j :: i < j < |recs| ==> recs[j].ch != recs[i].ch
  }

  /** Records are entered in file order, so a later record for the same
      character replaces an earlier one. */
  function ParseRecords(recs: seq<GlyphRecord>): (table: FontTable)
    ensures forall c :: c in table <==> exists i :: 0 <= i < |recs| && recs[i].ch == c
    ensures forall i :: 0 <= i < |recs| && LastFor(recs, i) ==> table[recs[i].ch] == ParseGlyph(recs[i])
  {
    if |recs| == 0 then map[]
    else
      var prefix := recs[..|recs| - 1];
      var last := recs[|recs| - 1];
      assert recs == prefix + [last];
      ParseRecords(prefix)[last.ch := ParseGlyph(last)]
  }

  predicate IsUpper(c: char) { 'A' <= c <= 'Z' }

  predicate IsLower(c: char) { 'a' <= c <= 'z' }

  function Lower(c: char): (l: char)
    requires IsUpper(c)
    ensures IsLower(l)
  {
    (c as int + 32) as char
  }

  /** The first `n` upper-case letters, in alphabetical order. */
  function Letters(n: nat): (r: string)
    requires n <= 26
    ensures |r| == n
    ensures forall i :: 0 <= i < n ==> r[i] == ('A' as int + i) as char
  {
    if n == 0 then [] else Letters(n - 1) + [('A' as int + n - 1) as char]
  }

  /** "ABCDEFGHIJKLMNOPQRSTUVWXYZ", the letters visited in turn. */
  const UPPERCASE: string := Letters(26)

  lemma UppercaseIsAllUpper(c: char)
    ensures c in UPPERCASE <==> IsUpper(c)
  {
    if IsUpper(c) {
      assert UPPERCASE[c as int - 'A' as int] == c;
    }
  }

  lemma UppercaseLetters()
    ensures forall i :: 0 <= i < |UPPERCASE| ==> IsUpper(UPPERCASE[i])
    ensures forall c :: IsUpper(c) ==> c in UPPERCASE
  {
    forall c | IsUpper(c) ensures c in UPPERCASE {
      UppercaseIsAllUpper(c);
    }
  }

  /** For each letter in turn, an absent upper-case glyph is added as a copy
      of its lower-case glyph when that exists. */
  function AliasUppercase(font: FontTable, letters: seq<char>): (r: FontTable)
    requires forall i :: 0 <= i < |letters| ==> IsUpper(letters[i])
    ensures forall c :: c in font ==> c in r && r[c] == font[c]
    ensures forall c :: c in r && c !in font ==> c in letters && Lower(c) in font && r[c] == font[Lower(c)]
    ensures forall c :: c in letters && c !in font && Lower(c) in font ==> c in r
    decreases |letters|
  {
    if |letters| == 0 then font
    else
      var c := letters[0];
      var f := if Lower(c) in font && c !in font then font[c := font[Lower(c)]] else font;
      LowerUnaffected(font, f, c);
      AliasUppercase(f, letters[1..])
  }

  /** Every upper-case letter A to Z is aliased in turn. */
  function AliasAll(table: FontTable): (r: FontTable)
    ensures forall c :: c in table ==> c in r && r[c] == table[c]
    ensures forall c :: c in r && c !in table ==> IsUpper(c) && Lower(c) in table && r[c] == table[Lower(c)]
    ensures forall c :: IsUpper(c) && c !in table && Lower(c) in table ==> c in r
  {
    UppercaseLetters();
    AliasUppercase(table, UPPERCASE)
  }

  /** Adding an upper-case glyph leaves every lower-case lookup as it was. */
  lemma LowerUnaffected(font: FontTable, f: FontTable, c: char)
    requires IsUpper(c)
    requires f == font || (Lower(c) in font && f == font[c := font[Lower(c)]])
    ensures forall u :: IsUpper(u) ==> (Lower(u) in f <==> Lower(u) in font)
    ensures forall u :: IsUpper(u) && Lower(u) in font ==> f[Lower(u)] == font[Lower(u)]
  {
  }

  /** The glyphs synthesised for the characters a font file may lack, each
      CHAR_WIDTH wide. */
  const SPACE_GLYPH: Glyph := Glyph(GlyphArt.SPACE, CHAR_WIDTH)
  const COLON_GLYPH: Glyph := Glyph(GlyphArt.COLON, CHAR_WIDTH)
  const HYPHEN_GLYPH: Glyph := Glyph(GlyphArt.HYPHEN, CHAR_WIDTH)
  const GREATER_GLYPH: Glyph := Glyph(GlyphArt.GREATER, CHAR_WIDTH)
  const HASH_GLYPH: Glyph := Glyph(GlyphArt.HASH, CHAR_WIDTH)

  /** The characters the layout always expects to find in the table. */
  predicate IsSynthesised(c: char)
  {
    c == ' ' || c == ':' || c == '-' || c == '>' || c == '#'
  }

  function WithDefault(font: FontTable, c: char, g: Glyph): (r: FontTable)
    ensures c in r
    ensures forall d :: d in font ==> d in r && r[d] == font[d]
    ensures forall d :: d in r ==> d in font || d == c
    ensures c !in font ==> r[c] == g
  {
    if c in font then font else font[c := g]
  }

  /** The glyph synthesised for each of the five characters. */
  function DefaultGlyph(c: char): Glyph
    requires IsSynthesised(c)
  {
    match c
    case ' ' => SPACE_GLYPH
    case ':' => COLON_GLYPH
    case '-' => HYPHEN_GLYPH
    case '>' => GREATER_GLYPH
    case '#' => HASH_GLYPH
  }

  /** Adds each of the five glyphs only where the table lacks it. */
  function Synthesise(font: FontTable): (r: FontTable)
    ensures forall c :: IsSynthesised(c) ==> c in r
    ensures forall c :: c in font ==> c in r && r[c] == font[c]
    ensures forall c :: c in r ==> c in font || IsSynthesised(c)
    ensures forall c :: IsSynthesised(c) && c !in font ==> r[c] == DefaultGlyph(c)
  {
    var f1 := WithDefault(font, ' ', DefaultGlyph(' '));
    var f2 := WithDefault(f1, ':', DefaultGlyph(':'));
    var f3 := WithDefault(f2, '-', DefaultGlyph('-'));
    var f4 := WithDefault(f3, '>', DefaultGlyph('>'));
    WithDefault(f4, '#', DefaultGlyph('#'))
  }

  /** Load-time normalisation of the table read from the font file. */
  function Normalise(table: FontTable): (r: FontTable)
    // the layout can rely on these five characters
    ensures forall c :: IsSynthesised(c) ==> c in r
    // a glyph of the file is never replaced
    ensures forall c :: c in table ==> c in r && r[c] == table[c]
    // an upper-case letter is present iff it or its lower-case letter is in the file
    ensures forall c :: IsUpper(c) ==> (c in r <==> c in table || Lower(c) in table)
    ensures forall c :: IsUpper(c) && c !in table && Lower(c) in table ==> r[c] == table[Lower(c)]
    // nothing else is added
    ensures forall c :: c in r ==> c in table || IsUpper(c) || IsSynthesised(c)
    // the synthesised glyphs, when the file lacks them
    ensures forall c :: IsSynthesised(c) && c !in table ==> r[c] == DefaultGlyph(c)
  {
    NormaliseHasFive(table);
    NormaliseKeepsFile(table);
    NormaliseAddsLittle(table);
    NormaliseDefaults(table);
    NormaliseLetters(table);
    Synthesise(AliasAll(table))
  }

  /** The five synthesised characters are always present afterwards. */
  lemma NormaliseHasFive(table: FontTable)
    ensures forall c :: IsSynthesised(c) ==> c in Synthesise(AliasAll(table))
  {
  }

  /** A glyph of the file survives normalisation unchanged. */
  lemma NormaliseKeepsFile(table: FontTable)
    ensures forall c :: c in table ==> c in Synthesise(AliasAll(table)) && Synthesise(AliasAll(table))[c] == table[c]
  {
  }

  /** Only upper-case letters and the five synthesised characters are added. */
  lemma NormaliseAddsLittle(table: FontTable)
    ensures forall c :: c in Synthesise(AliasAll(table)) ==> c in table || IsUpper(c) || IsSynthesised(c)
  {
  }

  /** A synthesised character missing from the file gets its fixed glyph. */
  lemma NormaliseDefaults(table: FontTable)
    ensures forall c :: IsSynthesised(c) && c !in table ==> Synthesise(AliasAll(table))[c] == DefaultGlyph(c)
  {
    forall c | IsSynthesised(c) && c !in table
      ensures Synthesise(AliasAll(table))[c] == DefaultGlyph(c)
    {
      NormaliseDefaultAt(table, c);
    }
  }

  lemma NormaliseDefaultAt(table: FontTable, c: char)
    requires IsSynthesised(c) && c !in table
    ensures Synthesise(AliasAll(table))[c] == DefaultGlyph(c)
  {
    var aliased := AliasAll(table);
    assert !IsUpper(c);
    assert c !in aliased;
    SynthesiseDefaultAt(aliased, c);
  }

  lemma SynthesiseDefaultAt(font: FontTable, c: char)
    requires IsSynthesised(c) && c !in font
    ensures c in Synthesise(font) && Synthesise(font)[c] == DefaultGlyph(c)
  {
  }

  /** The upper-case letters after normalisation are those aliasing made. */
  lemma NormaliseLetters(table: FontTable)
    ensures forall c :: IsUpper(c) ==> (c in Synthesise(AliasAll(table)) <==> c in table || Lower(c) in table)
    ensures forall c :: IsUpper(c) && c !in table && Lower(c) in table ==> Synthesise(AliasAll(table))[c] == table[Lower(c)]
  {
    var aliased := AliasAll(table);
    SynthesiseKeepsLetters(aliased);
    forall c | IsUpper(c)
      ensures c in aliased <==> c in table || Lower(c) in table
    {
      if c in aliased && c !in table {
        assert Lower(c) in table;
      }
    }
  }

  /** Synthesising glyphs neither adds nor changes an upper-case letter. */
  lemma SynthesiseKeepsLetters(font: FontTable)
    ensures forall c :: IsUpper(c) ==> (c in Synthesise(font) <==> c in font)
    ensures forall c :: IsUpper(c) && c in font ==> Synthesise(font)[c] == font[c]
  {
  }

  /** The font table built from the records of the font file. */
  function LoadFont(recs: seq<GlyphRecord>): FontTable
  {
    Normalise(ParseRecords(recs))
  }
}
