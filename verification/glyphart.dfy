/** The pixel matrices of the five glyphs the renderer synthesises when the
    font file lacks them: space, colon, hyphen, greater-than and hash, each
    11 rows of 7 columns. */
module GlyphArt {
  /** Set and unset pixels, written out row by row. */
  const X := true
  const o := false

  const SPACE: seq<seq<bool>> := [
    [o, o, o, o, o, o, o],
    [o, o, o, o, o, o, o],
    [o, o, o, o, o, o, o],
    [o, o, o, o, o, o, o],
    [o, o, o, o, o, o, o],
    [o, o, o, o, o, o, o],
    [o, o, o, o, o, o, o],
    [o, o, o, o, o, o, o],
    [o, o, o, o, o, o, o],
    [o, o, o, o, o, o, o],
    [o, o, o, o, o, o, o]]

  const COLON: seq<seq<bool>> := [
    [o, o, o, o, o, o, o],
    [o, o, o, o, o, o, o],
    [o, o, o, X, o, o, o],
    [o, o, o, X, o, o, o],
    [o, o, o, o, o, o, o],
    [o, o, o, o, o, o, o],
    [o, o, o, X, o, o, o],
    [o, o, o, X, o, o, o],
    [o, o, o, o, o, o, o],
    [o, o, o, o, o, o, o],
    [o, o, o, o, o, o, o]]

  const HYPHEN: seq<seq<bool>> := [
    [o, o, o, o, o, o, o],
    [o, o, o, o, o, o, o],
    [o, o, o, o, o, o, o],
    [o, o, o, o, o, o, o],
    [o, X, X, X, X, X, o],
    [o, o, o, o, o, o, o],
    [o, o, o, o, o, o, o],
    [o, o, o, o, o, o, o],
    [o, o, o, o, o, o, o],
    [o, o, o, o, o, o, o],
    [o, o, o, o, o, o, o]]

  const GREATER: seq<seq<bool>> := [
    [o, o, o, o, o, o, o],
    [o, X, o, o, o, o, o],
    [o, o, X, o, o, o, o],
    [o, o, o, X, o, o, o],
    [o, o, o, o, X, o, o],
    [o, o, o, X, o, o, o],
    [o, o, X, o, o, o, o],
    [o, X, o, o, o, o, o],
    [o, o, o, o, o, o, o],
    [o, o, o, o, o, o, o],
    [o, o, o, o, o, o, o]]

  const HASH: seq<seq<bool>> := [
    [o, o, o, o, o, o, o],
    [o, o, X, o, X, o, o],
    [o, o, X, o, X, o, o],
    [o, X, X, X, X, X, o],
    [o, o, X, o, X, o, o],
    [o, X, X, X, X, X, o],
    [o, o, X, o, X, o, o],
    [o, o, X, o, X, o, o],
    [o, o, o, o, o, o, o],
    [o, o, o, o, o, o, o],
    [o, o, o, o, o, o, o]]
}
