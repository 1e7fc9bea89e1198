/** drawChar and drawText: 8x8 bitmap glyphs from a 128-entry font, drawn
    with bit 0 of each row byte as the leftmost pixel. */
module Glyphs {
  import opened Raster

  /** One row of a glyph: eight pixels, one per bit. */
  type Byte = bv8

  /** Whether the glyph's pixel at (row, col) is set: bit `col` of row byte
      `row`, so bit 0 is the leftmost column. */
  predicate GlyphBit(g: seq<Byte>, row: int, col: int) {
    0 <= row < |g| && 0 <= col < 8 && BitSet(g[row], col)
  }

  /** The test drawChar makes: row byte `b` ANDed with 1 shifted left by `col`. */
  predicate BitSet(b: Byte, col: int)
    requires 0 <= col < 8
  {
    b & ((1 as Byte) << col) != 0
  }

  /** The pixels drawChar paints for glyph `g` placed with its top-left
      corner at (x0, y0), wherever they fall. */
  ghost function GlyphMask(g: seq<Byte>, x0: int, y0: int): iset<Point> {
    iset p: Point | GlyphBit(g, p.y - y0, p.x - x0)
  }

  /** The set bits of the glyph that come before (row, col) in the scan order
      of drawChar: rows top to bottom, columns left to right. */
  ghost function GlyphPart(g: seq<Byte>, x0: int, y0: int, row: int, col: int): iset<Point> {
    iset p: Point | GlyphBit(g, p.y - y0, p.x - x0) &&
                    (p.y - y0 < row || (p.y - y0 == row && p.x - x0 < col))
  }

  /** drawChar: every on-screen pixel of the glyph whose bit is set takes
      `color`; all other pixels keep their value. */
  method DrawChar(img: array<Color>, w: int, h: int, x0: int, y0: int, bitmap: seq<Byte>, color: Color)
    requires w > 0 && h > 0 && img.Length == w * h && |bitmap| == 8
    modifies img
    ensures img[..] == Overlay(old(img[..]), w, GlyphMask(bitmap, x0, y0), color)
  {
    ghost var base := img[..];
    assert GlyphPart(bitmap, x0, y0, 0, 0) == iset{};
    OverlaySlots(base, w, iset{}, color);
    var row := 0;
    while row < 8
      invariant 0 <= row <= 8
      invariant img[..] == Overlay(base, w, GlyphPart(bitmap, x0, y0, row, 0), color)
    {
      var col := 0;
      while col < 8
        invariant 0 <= col <= 8
        invariant img[..] == Overlay(base, w, GlyphPart(bitmap, x0, y0, row, col), color)
      {
        GlyphPartStep(bitmap, x0, y0, row, col);
        if BitSet(bitmap[row], col) {
          var x := x0 + col;
          var y := y0 + row;
          Plot(img, w, h, x, y, color, base, GlyphPart(bitmap, x0, y0, row, col));
        }
        col := col + 1;
      }
      assert GlyphPart(bitmap, x0, y0, row, 8) == GlyphPart(bitmap, x0, y0, row + 1, 0);
      row := row + 1;
    }
    assert GlyphPart(bitmap, x0, y0, 8, 0) == GlyphMask(bitmap, x0, y0);
  }

  /** One pass of the inner loop of drawChar adds pixel (x0 + col, y0 + row)
      to the painted part exactly when its bit is set. */
  lemma GlyphPartStep(g: seq<Byte>, x0: int, y0: int, row: int, col: int)
    requires 0 <= row < |g| && 0 <= col < 8
    ensures GlyphBit(g, row, col) ==>
      GlyphPart(g, x0, y0, row, col) + iset{Point(x0 + col, y0 + row)} == GlyphPart(g, x0, y0, row, col + 1)
    ensures !GlyphBit(g, row, col) ==>
      GlyphPart(g, x0, y0, row, col) == GlyphPart(g, x0, y0, row, col + 1)
  {
  }

  /** A glyph covers at most its 8x8 cell. */
  lemma GlyphInCell(g: seq<Byte>, x0: int, y0: int, p: Point)
    requires |g| == 8 && p in GlyphMask(g, x0, y0)
    ensures x0 <= p.x < x0 + 8 && y0 <= p.y < y0 + 8
  {
  }

  /** A font: one eight-row glyph for each of the 128 ASCII codes. */
  predicate WellFormedFont(font: seq<seq<Byte>>) {
    |font| == 128 && forall c :: 0 <= c < |font| ==> |font[c]| == 8
  }

  /** Every character of the text has a glyph: the table lookup is in range. */
  predicate Ascii(text: string) {
    forall i :: 0 <= i < |text| ==> text[i] as int < 128
  }

  /** The pixels drawText paints: character i drawn as a glyph with its cell
      at (x + 8*i, y). */
  ghost function TextMask(font: seq<seq<Byte>>, text: string, x: int, y: int): iset<Point>
    requires WellFormedFont(font) && Ascii(text)
    decreases |text|
  {
    if text == [] then iset{}
    else
      var n := |text| - 1;
      TextMask(font, text[..n], x, y) + GlyphMask(font[text[n] as int], x + 8 * n, y)
  }

  /** drawText: draws the characters left to right, advancing eight pixels per
      character; the image is the old one with every glyph's pixels painted. */
  method DrawText(img: array<Color>, w: int, h: int, x: int, y: int, text: string,
                  font: seq<seq<Byte>>, color: Color)
    requires w > 0 && h > 0 && img.Length == w * h
    requires WellFormedFont(font) && Ascii(text)
    modifies img
    ensures img[..] == Overlay(old(img[..]), w, TextMask(font, text, x, y), color)
  {
    ghost var base := img[..];
    OverlaySlots(base, w, iset{}, color);
    var cx := x;
    var i := 0;
    while i < |text|
      invariant 0 <= i <= |text| && cx == x + 8 * i
      invariant img[..] == Overlay(base, w, TextMask(font, text[..i], x, y), color)
    {
      ghost var before := img[..];
      var bitmap := font[text[i] as int];
      DrawChar(img, w, h, cx, y, bitmap, color);
      OverlayTwice(base, w, TextMask(font, text[..i], x, y), GlyphMask(bitmap, cx, y), color);
      assert text[..i + 1][..i] == text[..i];
      cx := cx + 8;
      i := i + 1;
    }
    assert text[..|text|] == text;
  }

  /** Which character owns a pixel: p is painted by drawText exactly when it
      lies in the row of cells, and the glyph of the character whose cell
      contains it, k = (p.x - x) / 8, has that pixel set. */
  lemma {:induction false} TextPixelOwner(font: seq<seq<Byte>>, text: string, x: int, y: int, p: Point)
    requires WellFormedFont(font) && Ascii(text)
    decreases |text|
    ensures p in TextMask(font, text, x, y) <==>
      x <= p.x < x + 8 * |text| &&
      var k := (p.x - x) / 8;
      p in GlyphMask(font[text[k] as int], x + 8 * k, y)
  {
    if text != [] {
      var n := |text| - 1;
      var init := text[..n];
      assert Ascii(init);
      TextPixelOwner(font, init, x, y, p);
      if x <= p.x < x + 8 * |text| {
        var k := (p.x - x) / 8;
        if k < n {
          assert init[k] == text[k];
          assert p !in GlyphMask(font[text[n] as int], x + 8 * n, y);
        } else {
          assert k == n;
        }
      }
    }
  }
}
