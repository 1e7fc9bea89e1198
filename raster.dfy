/** The framebuffer shared by every drawing routine: a row-major buffer of
    RGB triples, `w` pixels wide, where pixel (x, y) lives at slot y*w + x. */
module Raster {

  /** One RGB triple; the channels are plain ints, as in the image vector. */
  datatype Color = Color(r: int, g: int, b: int)

  const Red := Color(255, 0, 0)
  const White := Color(255, 255, 255)

  datatype Point = Point(x: int, y: int)

  function Abs(n: int): int { if n < 0 then -n else n }

  function Max(a: int, b: int): int { if a < b then b else a }

  predicate OnScreen(p: Point, w: int, h: int) {
    0 <= p.x < w && 0 <= p.y < h
  }

  /** The slot a pixel is stored at. */
  function IndexOf(p: Point, w: int): int { p.y * w + p.x }

  /** The pixel stored at slot i >= 0, counted off row by row: the first w
      slots are row 0, the next w row 1, and so on. */
  function PixelOf(i: int, w: int): Point
    requires w > 0
    decreases if i < 0 then 0 else i
  {
    if i < w then Point(i, 0)
    else var p := PixelOf(i - w, w); Point(p.x, p.y + 1)
  }

  /** The image obtained from `img` by setting to `c` every pixel that lies in
      `mask`; all other pixels keep their value. Points of the mask that are
      off screen have no slot and so change nothing. Defined slot by slot from
      the end, so that it unfolds only as far as a proof asks. */
  ghost function Overlay(img: seq<Color>, w: int, mask: iset<Point>, c: Color): (r: seq<Color>)
    requires w > 0
    decreases |img|
    ensures |r| == |img|
  {
    if img == [] then []
    else
      var n := |img| - 1;
      Overlay(img[..n], w, mask, c) + [if PixelOf(n, w) in mask then c else img[n]]
  }

  /** Slot i of the overlaid image holds `c` when its pixel is in the mask and
      the old value otherwise. */
  lemma {:induction false} OverlaySlot(img: seq<Color>, w: int, mask: iset<Point>, c: Color, i: int)
    requires w > 0 && 0 <= i < |img|
    decreases |img|
    ensures Overlay(img, w, mask, c)[i] == if PixelOf(i, w) in mask then c else img[i]
  {
    var n := |img| - 1;
    if i < n {
      OverlaySlot(img[..n], w, mask, c, i);
    }
  }

  lemma OverlaySlots(img: seq<Color>, w: int, mask: iset<Point>, c: Color)
    requires w > 0
    ensures forall i :: 0 <= i < |img| ==>
      Overlay(img, w, mask, c)[i] == if PixelOf(i, w) in mask then c else img[i]
  {
    forall i | 0 <= i < |img| {
      OverlaySlot(img, w, mask, c, i);
    }
  }

  lemma MulMonotone(a: int, b: int, w: int)
    requires a <= b && w >= 0
    ensures a * w <= b * w
  {
    assert b * w - a * w == (b - a) * w;
  }

  /** Slot i >= 0 holds the pixel whose row-major index is i, and its column
      lies in [0, w). */
  lemma {:induction false} PixelOfIndex(i: int, w: int)
    requires w > 0 && i >= 0
    decreases i
    ensures var p := PixelOf(i, w); 0 <= p.x < w && p.y >= 0 && i == IndexOf(p, w)
  {
    if i >= w {
      PixelOfIndex(i - w, w);
    }
  }

  /** A row-major index determines its row and column. */
  lemma RowColumnUnique(w: int, y1: int, x1: int, y2: int, x2: int)
    requires w > 0 && 0 <= x1 < w && 0 <= x2 < w && y1 * w + x1 == y2 * w + x2
    ensures y1 == y2 && x1 == x2
  {
    if y1 < y2 {
      MulMonotone(y1 + 1, y2, w);
      assert false;
    } else if y2 < y1 {
      MulMonotone(y2 + 1, y1, w);
      assert false;
    }
  }

  /** Slot and pixel are inverse to each other on screen. */
  lemma PixelIndex(w: int, h: int, p: Point)
    requires w > 0 && h > 0 && OnScreen(p, w, h)
    ensures 0 <= IndexOf(p, w) < w * h
    ensures PixelOf(IndexOf(p, w), w) == p
    ensures forall i :: 0 <= i < w * h ==> (PixelOf(i, w) == p <==> i == IndexOf(p, w))
  {
    MulMonotone(0, p.y, w);
    MulMonotone(p.y, h - 1, w);
    var k := IndexOf(p, w);
    PixelOfIndex(k, w);
    RowColumnUnique(w, PixelOf(k, w).y, PixelOf(k, w).x, p.y, p.x);
    forall i | 0 <= i < w * h && PixelOf(i, w) == p
      ensures i == k
    {
      PixelOfIndex(i, w);
    }
  }

  /** Every slot of a w*h buffer holds an on-screen pixel. */
  lemma SlotsOnScreen(w: int, h: int)
    requires w > 0 && h > 0
    ensures forall i :: 0 <= i < w * h ==> OnScreen(PixelOf(i, w), w, h)
  {
    forall i | 0 <= i < w * h
      ensures OnScreen(PixelOf(i, w), w, h)
    {
      PixelOfIndex(i, w);
      if PixelOf(i, w).y >= h {
        MulMonotone(h, PixelOf(i, w).y, w);
        assert false;
      }
    }
  }

  /** What Overlay means at one on-screen pixel. */
  lemma OverlayAt(img: seq<Color>, w: int, h: int, mask: iset<Point>, c: Color, p: Point)
    requires w > 0 && h > 0 && |img| == w * h && OnScreen(p, w, h)
    ensures 0 <= IndexOf(p, w) < |img|
    ensures Overlay(img, w, mask, c)[IndexOf(p, w)] == if p in mask then c else img[IndexOf(p, w)]
  {
    PixelIndex(w, h, p);
    OverlaySlot(img, w, mask, c, IndexOf(p, w));
  }

  /** Adding one point to the mask writes `c` at that point's slot, or changes
      nothing when the point is off screen. This is the effect of one guarded
      pixel write `if (on screen) img[y*w + x] = c`. */
  lemma OverlayExtend(base: seq<Color>, w: int, h: int, mask: iset<Point>, c: Color, p: Point)
    requires w > 0 && h > 0 && |base| == w * h
    ensures OnScreen(p, w, h) ==>
      0 <= IndexOf(p, w) < |base| &&
      Overlay(base, w, mask + iset{p}, c) == Overlay(base, w, mask, c)[IndexOf(p, w) := c]
    ensures !OnScreen(p, w, h) ==> Overlay(base, w, mask + iset{p}, c) == Overlay(base, w, mask, c)
  {
    OverlaySlots(base, w, mask, c);
    OverlaySlots(base, w, mask + iset{p}, c);
    if OnScreen(p, w, h) {
      PixelIndex(w, h, p);
    } else {
      SlotsOnScreen(w, h);
    }
  }

  /** The guarded pixel write of drawLine, drawCircle and drawChar (the
      crosshair arms test one axis only and write directly): set (x, y) to
      `c` when it is on screen, otherwise do nothing. Stated on the image as
      adding (x, y) to the mask painted so far over `base`. */
  method Plot(img: array<Color>, w: int, h: int, x: int, y: int, c: Color,
              ghost base: seq<Color>, ghost mask: iset<Point>)
    requires w > 0 && h > 0 && img.Length == w * h && |base| == w * h
    requires img[..] == Overlay(base, w, mask, c)
    modifies img
    ensures img[..] == Overlay(base, w, mask + iset{Point(x, y)}, c)
  {
    OverlayExtend(base, w, h, mask, c, Point(x, y));
    if x >= 0 && x < w && y >= 0 && y < h {
      img[y * w + x] := c;
    }
  }

  /** Painting two masks one after the other in the same colour paints their union. */
  lemma OverlayTwice(img: seq<Color>, w: int, m1: iset<Point>, m2: iset<Point>, c: Color)
    requires w > 0
    ensures Overlay(Overlay(img, w, m1, c), w, m2, c) == Overlay(img, w, m1 + m2, c)
  {
    OverlaySlots(img, w, m1, c);
    OverlaySlots(Overlay(img, w, m1, c), w, m2, c);
    OverlaySlots(img, w, m1 + m2, c);
  }

  /** A mask with no on-screen point leaves the image as it was. */
  lemma OverlayOffScreen(img: seq<Color>, w: int, h: int, mask: iset<Point>, c: Color)
    requires w > 0 && h > 0 && |img| == w * h
    requires forall p :: p in mask ==> !OnScreen(p, w, h)
    ensures Overlay(img, w, mask, c) == img
  {
    SlotsOnScreen(w, h);
    OverlaySlots(img, w, mask, c);
  }
}
