/** drawCircle and drawRedCrosshair: filled disks for the bodies and the
    four-armed marker at the centre of a square screen. */
module Shapes {
  import opened Raster

  // ---------------------------------------------------------------------------
  // drawCircle

  /** The integer test drawCircle applies to an offset from the centre. */
  predicate InDisk(dx: int, dy: int, r: int) {
    dx * dx + dy * dy <= r * r
  }

  /** The pixels drawCircle paints, wherever they fall: every offset within
      distance r of the centre; nothing at all when r is negative. */
  ghost function DiskMask(cx: int, cy: int, r: int): iset<Point> {
    iset p: Point | r >= 0 && InDisk(p.x - cx, p.y - cy, r)
  }

  /** The offsets of the scan square [-r, r] x [-r, r] that pass the test and
      come before (dy, dx) in row-major scan order. */
  ghost function DiskPart(cx: int, cy: int, r: int, dy: int, dx: int): iset<Point> {
    iset p: Point | -r <= p.x - cx <= r && -r <= p.y - cy <= r && InDisk(p.x - cx, p.y - cy, r) &&
             (p.y - cy < dy || (p.y - cy == dy && p.x - cx < dx))
  }

  lemma OverlayNothing(img: seq<Color>, w: int, c: Color)
    requires w > 0
    ensures Overlay(img, w, iset{}, c) == img
  {
    OverlaySlots(img, w, iset{}, c);
  }

  /** For r >= 0, an offset whose square is at most r*r lies in [-r, r]. */
  lemma SquareBound(a: int, b: int, r: int)
    requires r >= 0 && a * a + b * b <= r * r
    ensures -r <= a <= r
  {
    assert b * b >= 0;
    if a > r {
      MulMonotone(r, a, r);
      MulMonotone(r, a, a);
      assert false;
    } else if a < -r {
      MulMonotone(r, -a, r);
      MulMonotone(r, -a, -a);
      assert false;
    }
  }

  /** Once every row of the scan square has been visited, the visited part is
      the whole disk, so no pixel of the disk is missed by the square scan. */
  lemma DiskScanComplete(cx: int, cy: int, r: int, dy: int)
    requires dy > r && (r >= 0 ==> dy == r + 1)
    ensures DiskPart(cx, cy, r, dy, -r) == DiskMask(cx, cy, r)
  {
    forall p | p in DiskMask(cx, cy, r)
      ensures p in DiskPart(cx, cy, r, dy, -r)
    {
      SquareBound(p.x - cx, p.y - cy, r);
      SquareBound(p.y - cy, p.x - cx, r);
    }
  }

  /** drawCircle: every on-screen pixel at integer distance at most `radius`
      from (cx, cy) is set to `color` and no other pixel changes. */
  method DrawCircle(img: array<Color>, w: int, h: int, cx: int, cy: int, radius: int, color: Color)
    requires w > 0 && h > 0 && img.Length == w * h
    modifies img
    ensures img[..] == Overlay(old(img[..]), w, DiskMask(cx, cy, radius), color)
  {
    ghost var base := img[..];
    assert DiskPart(cx, cy, radius, -radius, -radius) == iset{};
    OverlayNothing(base, w, color);
    var dy := -radius;
    while dy <= radius
      invariant dy >= -radius && (radius >= 0 ==> dy <= radius + 1)
      invariant img[..] == Overlay(base, w, DiskPart(cx, cy, radius, dy, -radius), color)
    {
      var dx := -radius;
      while dx <= radius
        invariant -radius <= dx <= radius + 1
        invariant img[..] == Overlay(base, w, DiskPart(cx, cy, radius, dy, dx), color)
      {
        if dx * dx + dy * dy <= radius * radius {
          var x := cx + dx;
          var y := cy + dy;
          Plot(img, w, h, x, y, color, base, DiskPart(cx, cy, radius, dy, dx));
          assert DiskPart(cx, cy, radius, dy, dx) + iset{Point(x, y)} == DiskPart(cx, cy, radius, dy, dx + 1);
        } else {
          assert DiskPart(cx, cy, radius, dy, dx) == DiskPart(cx, cy, radius, dy, dx + 1);
        }
        dx := dx + 1;
      }
      assert DiskPart(cx, cy, radius, dy, radius + 1) == DiskPart(cx, cy, radius, dy + 1, -radius);
      dy := dy + 1;
    }
    DiskScanComplete(cx, cy, radius, dy);
  }

  /** A negative radius paints nothing. */
  lemma NegativeRadiusPaintsNothing(img: seq<Color>, w: int, cx: int, cy: int, radius: int, color: Color)
    requires w > 0 && radius < 0
    ensures Overlay(img, w, DiskMask(cx, cy, radius), color) == img
  {
    assert DiskMask(cx, cy, radius) == iset{};
    OverlayNothing(img, w, color);
  }

  /** The disk is symmetric about its centre in both axes. */
  lemma DiskSymmetric(cx: int, cy: int, r: int, p: Point)
    ensures p in DiskMask(cx, cy, r) <==> Point(2 * cx - p.x, p.y) in DiskMask(cx, cy, r)
    ensures p in DiskMask(cx, cy, r) <==> Point(p.x, 2 * cy - p.y) in DiskMask(cx, cy, r)
  {
    assert (cx - p.x) * (cx - p.x) == (p.x - cx) * (p.x - cx);
    assert (cy - p.y) * (cy - p.y) == (p.y - cy) * (p.y - cy);
  }

  /** A body whose centre was culled to the sentinel (-1, -1) is still drawn:
      with the radius of at least 2 that the body disks get, the disk reaches
      pixel (0, 0) in the top-left corner and paints it. */
  lemma CulledBodyPaintsCorner(img: seq<Color>, w: int, h: int, radius: int, color: Color)
    requires w > 0 && h > 0 && |img| == w * h && radius >= 2
    ensures Overlay(img, w, DiskMask(-1, -1, radius), color)[0] == color
  {
    MulMonotone(2, radius, radius);
    MulMonotone(2, radius, 2);
    assert Point(0, 0) in DiskMask(-1, -1, radius);
    OverlayAt(img, w, h, DiskMask(-1, -1, radius), color, Point(0, 0));
  }

  /** The minor-planet marker is drawCircle with its default colour, white,
      and radius 3: it covers the 5x5 square around its centre. */
  lemma MinorPlanetMarkerCoversSquare(img: seq<Color>, w: int, h: int, cx: int, cy: int, p: Point)
    requires w > 0 && h > 0 && |img| == w * h && OnScreen(p, w, h)
    requires -2 <= p.x - cx <= 2 && -2 <= p.y - cy <= 2
    ensures 0 <= IndexOf(p, w) < |img|
    ensures Overlay(img, w, DiskMask(cx, cy, 3), White)[IndexOf(p, w)] == White
  {
    var dx, dy := p.x - cx, p.y - cy;
    assert dx * dx <= 4 by {
      assert dx == -2 || dx == -1 || dx == 0 || dx == 1 || dx == 2;
    }
    assert dy * dy <= 4 by {
      assert dy == -2 || dy == -1 || dy == 0 || dy == 1 || dy == 2;
    }
    assert InDisk(dx, dy, 3) by {
      assert dx * dx + dy * dy <= 8;
      assert 3 * 3 == 9;
    }
    assert p in DiskMask(cx, cy, 3);
    OverlayAt(img, w, h, DiskMask(cx, cy, 3), White, p);
  }

  // ---------------------------------------------------------------------------
  // drawRedCrosshair

  /** The pixel at signed offset d from c along one axis. */
  function ArmPoint(c: Point, vertical: bool, d: int): Point {
    if vertical then Point(c.x, c.y + d) else Point(c.x + d, c.y)
  }

  /** The pixels at offsets lo..hi from c along one axis. */
  ghost function Ray(c: Point, vertical: bool, lo: int, hi: int): iset<Point> {
    iset p: Point | if vertical then p.x == c.x && lo <= p.y - c.y <= hi
             else p.y == c.y && lo <= p.x - c.x <= hi
  }

  /** The marker: the pixels at distance 3 to 7 from the centre (n/2, n/2)
      along either axis, arms of five pixels each with a three-pixel gap. */
  ghost function CrosshairMask(n: int): iset<Point> {
    var c := n / 2;
    iset p: Point | (p.x == c && 3 <= Abs(p.y - c) <= 7) || (p.y == c && 3 <= Abs(p.x - c) <= 7)
  }

  /** Painting one more pixel below the low end of a ray extends the ray. */
  lemma RayGrowLow(prior: iset<Point>, c: Point, vertical: bool, lo: int, hi: int)
    requires lo <= hi + 1
    ensures (prior + Ray(c, vertical, lo, hi)) + iset{ArmPoint(c, vertical, lo - 1)}
         == prior + Ray(c, vertical, lo - 1, hi)
  {
  }

  /** Painting one more pixel past the high end of a ray extends the ray. */
  lemma RayGrowHigh(prior: iset<Point>, c: Point, vertical: bool, lo: int, hi: int)
    requires lo <= hi + 1
    ensures (prior + Ray(c, vertical, lo, hi)) + iset{ArmPoint(c, vertical, hi + 1)}
         == prior + Ray(c, vertical, lo, hi + 1)
  {
  }

  /** One pass of an arm loop, at offset d just beyond the ray painted so far:
      a guarded write of pixel p = ArmPoint(c, vertical, d) turns the image for
      the old ray into the image for the ray grown by p. */
  lemma ArmStep(base: seq<Color>, n: int, prior: iset<Point>, c: Point, vertical: bool,
                lo: int, hi: int, d: int, p: Point)
    requires n > 0 && |base| == n * n && lo <= hi + 1 && (d == lo - 1 || d == hi + 1)
    requires p == ArmPoint(c, vertical, d)
    ensures var before := Overlay(base, n, prior + Ray(c, vertical, lo, hi), Red);
      var after := Overlay(base, n, prior + Ray(c, vertical, if d < lo then d else lo, if d > hi then d else hi), Red);
      (OnScreen(p, n, n) ==> 0 <= IndexOf(p, n) < |before| && after == before[IndexOf(p, n) := Red]) &&
      (!OnScreen(p, n, n) ==> after == before)
  {
    OverlayExtend(base, n, n, prior + Ray(c, vertical, lo, hi), Red, p);
    if d == lo - 1 {
      RayGrowLow(prior, c, vertical, lo, hi);
    } else {
      RayGrowHigh(prior, c, vertical, lo, hi);
    }
  }

  /** A ray with no offsets adds nothing. */
  lemma RayEmpty(prior: iset<Point>, c: Point, vertical: bool, lo: int)
    ensures prior + Ray(c, vertical, lo, lo - 1) == prior
  {
  }

  /** The marker's four arms are the rays at offsets -7..-3 and 3..7 on each axis. */
  lemma CrosshairArms(n: int)
    ensures var c := Point(n / 2, n / 2);
      iset{} + Ray(c, true, -7, -3) + Ray(c, true, 3, 7) + Ray(c, false, -7, -3) + Ray(c, false, 3, 7)
        == CrosshairMask(n)
  {
  }

  /** drawRedCrosshair on an n x n screen: paints exactly the on-screen pixels
      of the marker red and leaves every other pixel as it was. The four arm
      loops of the routine are the four methods below, run in the same order. */
  method DrawRedCrosshair(img: array<Color>, n: int)
    requires n > 0 && img.Length == n * n
    modifies img
    ensures img[..] == Overlay(old(img[..]), n, CrosshairMask(n), Red)
  {
    ghost var base := img[..];
    var cx := n / 2;
    var cy := n / 2;
    ghost var c := Point(cx, cy);
    OverlayNothing(base, n, Red);
    UpwardArm(img, n, cx, cy, base, iset{});
    DownwardArm(img, n, cx, cy, base, iset{} + Ray(c, true, -7, -3));
    LeftArm(img, n, cx, cy, base, iset{} + Ray(c, true, -7, -3) + Ray(c, true, 3, 7));
    RightArm(img, n, cx, cy, base, iset{} + Ray(c, true, -7, -3) + Ray(c, true, 3, 7) + Ray(c, false, -7, -3));
    CrosshairArms(n);
  }

  /** The upward arm: offsets -3 down to -7 in y; only y is bounds-checked. */
  method UpwardArm(img: array<Color>, n: int, cx: int, cy: int, ghost base: seq<Color>, ghost prior: iset<Point>)
    requires n > 0 && img.Length == n * n && |base| == n * n && 0 <= cx < n
    requires img[..] == Overlay(base, n, prior, Red)
    modifies img
    ensures img[..] == Overlay(base, n, prior + Ray(Point(cx, cy), true, -7, -3), Red)
  {
    ghost var c := Point(cx, cy);
    RayEmpty(prior, c, true, -2);
    var dy := -3;
    while dy > -3 - 5
      invariant -8 <= dy <= -3
      invariant img[..] == Overlay(base, n, prior + Ray(c, true, dy + 1, -3), Red)
    {
      var y := cy + dy;
      ArmStep(base, n, prior, c, true, dy + 1, -3, dy, Point(cx, y));
      if y >= 0 && y < n {
        img[y * n + cx] := Red;
      }
      dy := dy - 1;
    }
  }

  /** The downward arm: offsets 3 up to 7 in y; only y is bounds-checked. */
  method DownwardArm(img: array<Color>, n: int, cx: int, cy: int, ghost base: seq<Color>, ghost prior: iset<Point>)
    requires n > 0 && img.Length == n * n && |base| == n * n && 0 <= cx < n
    requires img[..] == Overlay(base, n, prior, Red)
    modifies img
    ensures img[..] == Overlay(base, n, prior + Ray(Point(cx, cy), true, 3, 7), Red)
  {
    ghost var c := Point(cx, cy);
    RayEmpty(prior, c, true, 3);
    var dy := 3;
    while dy < 3 + 5
      invariant 3 <= dy <= 8
      invariant img[..] == Overlay(base, n, prior + Ray(c, true, 3, dy - 1), Red)
    {
      var y := cy + dy;
      ArmStep(base, n, prior, c, true, 3, dy - 1, dy, Point(cx, y));
      if y >= 0 && y < n {
        img[y * n + cx] := Red;
      }
      dy := dy + 1;
    }
  }

  /** The left arm: offsets -3 down to -7 in x; only x is bounds-checked. */
  method LeftArm(img: array<Color>, n: int, cx: int, cy: int, ghost base: seq<Color>, ghost prior: iset<Point>)
    requires n > 0 && img.Length == n * n && |base| == n * n && 0 <= cy < n
    requires img[..] == Overlay(base, n, prior, Red)
    modifies img
    ensures img[..] == Overlay(base, n, prior + Ray(Point(cx, cy), false, -7, -3), Red)
  {
    ghost var c := Point(cx, cy);
    RayEmpty(prior, c, false, -2);
    var dx := -3;
    while dx > -3 - 5
      invariant -8 <= dx <= -3
      invariant img[..] == Overlay(base, n, prior + Ray(c, false, dx + 1, -3), Red)
    {
      var x := cx + dx;
      ArmStep(base, n, prior, c, false, dx + 1, -3, dx, Point(x, cy));
      if x >= 0 && x < n {
        img[cy * n + x] := Red;
      }
      dx := dx - 1;
    }
  }

  /** The right arm: offsets 3 up to 7 in x; only x is bounds-checked. */
  method RightArm(img: array<Color>, n: int, cx: int, cy: int, ghost base: seq<Color>, ghost prior: iset<Point>)
    requires n > 0 && img.Length == n * n && |base| == n * n && 0 <= cy < n
    requires img[..] == Overlay(base, n, prior, Red)
    modifies img
    ensures img[..] == Overlay(base, n, prior + Ray(Point(cx, cy), false, 3, 7), Red)
  {
    ghost var c := Point(cx, cy);
    RayEmpty(prior, c, false, 3);
    var dx := 3;
    while dx < 3 + 5
      invariant 3 <= dx <= 8
      invariant img[..] == Overlay(base, n, prior + Ray(c, false, 3, dx - 1), Red)
    {
      var x := cx + dx;
      ArmStep(base, n, prior, c, false, 3, dx - 1, dx, Point(x, cy));
      if x >= 0 && x < n {
        img[cy * n + x] := Red;
      }
      dx := dx + 1;
    }
  }

  /** The marker never touches the centre pixel or its eight neighbours: the
      gap of three pixels keeps the target itself visible. */
  lemma CrosshairLeavesCentre(n: int, p: Point)
    requires Abs(p.x - n / 2) <= 2 && Abs(p.y - n / 2) <= 2
    ensures p !in CrosshairMask(n)
  {
  }
}
