/**
  The text renderer (maze.rb `mchars`, `convert_even`, `convert_odd`). A value
  with no glyph (anything but 0, 1 and 2, in particular an unset cell) renders
  as None, which stands for Ruby's `nil` element.
 */
module Render {
  import opened Wrappers

  /** Glyph of value v at column i of an even render row (corners and horizontal walls). */
  function EvenGlyph(v: int, i: int): Option<char>
  {
    if v == 0 then Some(' ')
    else if v == 1 then (if i % 2 == 0 then Some('+') else Some('-'))
    else if v == 2 then Some('*')
    else None
  }

  /** Glyph of value v in an odd render row (cell centres and vertical walls). */
  function OddGlyph(v: int): Option<char>
  {
    if v == 0 then Some(' ')
    else if v == 1 then Some('|')
    else if v == 2 then Some('*')
    else None
  }

  /** The value a glyph stands for: the reading a person makes of the picture. */
  function GlyphValue(g: Option<char>): int
  {
    match g
    case None => -1
    case Some(ch) =>
      if ch == ' ' then 0
      else if ch == '+' || ch == '-' || ch == '|' then 1
      else if ch == '*' then 2
      else -1
  }

  /** The glyphs the renderer uses. */
  predicate IsGlyph(ch: char)
  {
    ch == ' ' || ch == '+' || ch == '-' || ch == '|' || ch == '*'
  }

  /** Values that the renderer can draw: open, wall and marked. */
  predicate Drawable(v: int)
  {
    0 <= v <= 2
  }

  /** An even render row, one glyph per cell; a drawable value can be read back from its glyph. */
  function ConvertEven(row: seq<int>): (r: seq<Option<char>>)
    ensures |r| == |row|
    ensures forall i :: 0 <= i < |row| ==> (r[i].Some? <==> Drawable(row[i]))
    ensures forall i :: 0 <= i < |row| && Drawable(row[i]) ==> GlyphValue(r[i]) == row[i] && IsGlyph(r[i].value)
    ensures forall i :: 0 <= i < |row| && r[i].Some? ==> r[i].value != '|'
  {
    seq(|row|, i requires 0 <= i < |row| => EvenGlyph(row[i], i))
  }

  /** An odd render row, one glyph per cell; a drawable value can be read back from its glyph. */
  function ConvertOdd(row: seq<int>): (r: seq<Option<char>>)
    ensures |r| == |row|
    ensures forall i :: 0 <= i < |row| ==> (r[i].Some? <==> Drawable(row[i]))
    ensures forall i :: 0 <= i < |row| && Drawable(row[i]) ==> GlyphValue(r[i]) == row[i] && IsGlyph(r[i].value)
    ensures forall i :: 0 <= i < |row| && r[i].Some? ==> r[i].value != '+' && r[i].value != '-'
  {
    seq(|row|, i requires 0 <= i < |row| => OddGlyph(row[i]))
  }

  /** The whole grid, one row of glyphs per row of values, by row parity. */
  function MChars(arr: seq<seq<int>>): (r: seq<seq<Option<char>>>)
    ensures |r| == |arr|
    ensures forall i :: 0 <= i < |arr| ==> |r[i]| == |arr[i]|
  {
    seq(|arr|, i requires 0 <= i < |arr| => if i % 2 == 0 then ConvertEven(arr[i]) else ConvertOdd(arr[i]))
  }

  /** Reads a rendered grid back into values. */
  function Unrender(pic: seq<seq<Option<char>>>): (arr: seq<seq<int>>)
    ensures |arr| == |pic|
    ensures forall i :: 0 <= i < |pic| ==> |arr[i]| == |pic[i]|
  {
    seq(|pic|, i requires 0 <= i < |pic| => seq(|pic[i]|, j requires 0 <= j < |pic[i]| => GlyphValue(pic[i][j])))
  }

  /** Every grid of open, wall and marked cells is recovered from its picture. */
  lemma RenderRoundTrip(arr: seq<seq<int>>)
    requires forall i, j :: 0 <= i < |arr| && 0 <= j < |arr[i]| ==> Drawable(arr[i][j])
    ensures Unrender(MChars(arr)) == arr
  {
    var pic := MChars(arr);
    forall i | 0 <= i < |arr|
      ensures Unrender(pic)[i] == arr[i]
    {
      var row := if i % 2 == 0 then ConvertEven(arr[i]) else ConvertOdd(arr[i]);
      assert pic[i] == row;
      forall j | 0 <= j < |arr[i]|
        ensures Unrender(pic)[i][j] == arr[i][j]
      {
        assert Drawable(arr[i][j]);
      }
    }
  }

  /** At a wall cell of an even row, the glyph tells a corner column from a wall-segment column. */
  lemma EvenWallGlyphs(row: seq<int>, i: int)
    requires 0 <= i < |row| && row[i] == 1
    ensures ConvertEven(row)[i] == (if i % 2 == 0 then Some('+') else Some('-'))
  {
  }
}
