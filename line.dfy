/** drawLine: the all-octant integer Bresenham walk with its iteration cap. */
module Line {
  import opened Raster

  /** The constants of one walk: the target, the absolute run `dx`, the
      negated absolute rise `dy` (never positive), the step signs and the cap
      2 * max(screen_x, screen_y). */
  datatype LinePlan = LinePlan(x1: int, y1: int, dx: int, dy: int, sx: int, sy: int, maxIters: int)

  /** The variables the loop updates: the current pixel and the error term. */
  datatype Cursor = Cursor(x: int, y: int, err: int)

  /** The constants set up before the loop: a run that is never negative, a
      rise that is never positive, unit step signs, and a cap that leaves room
      for twice the screen's larger side. */
  function Plan(x0: int, y0: int, x1: int, y1: int, w: int, h: int): (p: LinePlan)
    ensures p.x1 == x1 && p.y1 == y1
    ensures p.dx >= 0 && p.dy <= 0 && (p.sx == 1 || p.sx == -1) && (p.sy == 1 || p.sy == -1)
    ensures p.maxIters >= 2 * w && p.maxIters >= 2 * h
  {
    LinePlan(x1, y1, Abs(x1 - x0), -Abs(y1 - y0),
             if x0 < x1 then 1 else -1, if y0 < y1 then 1 else -1,
             Max(w, h) * 2)
  }

  /** The plan spans the segment: `dx` steps of `sx` from x0 land on x1, and
      `-dy` steps of `sy` from y0 land on y1. */
  lemma PlanSpansSegment(x0: int, y0: int, x1: int, y1: int, w: int, h: int)
    ensures var p := Plan(x0, y0, x1, y1, w, h);
      x0 + p.sx * p.dx == x1 && y0 - p.sy * p.dy == y1
  {
  }

  predicate WellFormed(p: LinePlan) {
    p.dx >= 0 && p.dy <= 0 && (p.sx == 1 || p.sx == -1) && (p.sy == 1 || p.sy == -1) && p.maxIters >= 0
  }

  predicate AtTarget(p: LinePlan, c: Cursor) { c.x == p.x1 && c.y == p.y1 }

  /** One pass of the loop after the pixel is plotted: both tests use the same
      doubled error e2, taken before either update. */
  function Advance(p: LinePlan, c: Cursor): Cursor {
    var e2 := 2 * c.err;
    Cursor(if e2 >= p.dy then c.x + p.sx else c.x,
           if e2 <= p.dx then c.y + p.sy else c.y,
           c.err + (if e2 >= p.dy then p.dy else 0) + (if e2 <= p.dx then p.dx else 0))
  }

  /** The pixels the loop plots, in order, from cursor `c` after `iters`
      completed passes. The loop stops after plotting the target, or once the
      pass counter exceeds the cap. */
  function Walk(p: LinePlan, c: Cursor, iters: int): seq<Point>
    requires 0 <= iters <= p.maxIters
    decreases p.maxIters - iters
  {
    if AtTarget(p, c) || iters + 1 > p.maxIters then [Point(c.x, c.y)]
    else [Point(c.x, c.y)] + Walk(p, Advance(p, c), iters + 1)
  }

  /** The walk starts at the cursor, plots at most maxIters + 1 pixels and, when
      it stops short of the target, it has plotted exactly that many. */
  lemma {:induction false} WalkShape(p: LinePlan, c: Cursor, iters: int)
    requires 0 <= iters <= p.maxIters
    decreases p.maxIters - iters
    ensures var path := Walk(p, c, iters);
      1 <= |path| <= p.maxIters - iters + 1 &&
      path[0] == Point(c.x, c.y) &&
      (path[|path| - 1] == Point(p.x1, p.y1) || |path| == p.maxIters - iters + 1)
  {
    if !(AtTarget(p, c) || iters + 1 > p.maxIters) {
      WalkShape(p, Advance(p, c), iters + 1);
    }
  }

  lemma WalkUnfold(p: LinePlan, c: Cursor, iters: int)
    requires 0 <= iters < p.maxIters && !AtTarget(p, c)
    ensures Walk(p, c, iters) == [Point(c.x, c.y)] + Walk(p, Advance(p, c), iters + 1)
  {
  }

  predicate Rejected(x0: int, y0: int, x1: int, y1: int) {
    x0 < 0 || y0 < 0 || x1 < 0 || y1 < 0
  }

  /** Every pixel drawLine visits (plotted when on screen), in order; empty
      when an endpoint has a negative coordinate. */
  function LinePixels(x0: int, y0: int, x1: int, y1: int, w: int, h: int): (path: seq<Point>)
    requires w > 0 && h > 0
    ensures path == [] <==> Rejected(x0, y0, x1, y1)
    ensures path != [] ==> path[0] == Point(x0, y0)
  {
    if Rejected(x0, y0, x1, y1) then []
    else
      var p := Plan(x0, y0, x1, y1, w, h);
      Walk(p, Cursor(x0, y0, p.dx + p.dy), 0)
  }

  ghost function PathMask(path: seq<Point>): iset<Point> {
    iset q | q in path
  }

  lemma EmptyPathPaintsNothing(img: seq<Color>, w: int, h: int, c: Color)
    requires w > 0 && h > 0 && |img| == w * h
    ensures Overlay(img, w, PathMask([]), c) == img
  {
    OverlayOffScreen(img, w, h, PathMask([]), c);
  }

  /** The framebuffer after drawLine: it writes `color` at every on-screen
      pixel of LinePixels and nowhere else. A segment with a negative endpoint
      coordinate is dropped before any pixel is touched. */
  method DrawLine(img: array<Color>, w: int, h: int, x0: int, y0: int, x1: int, y1: int, color: Color)
    requires w > 0 && h > 0 && img.Length == w * h
    modifies img
    ensures img[..] == Overlay(old(img[..]), w, PathMask(LinePixels(x0, y0, x1, y1, w, h)), color)
  {
    if x0 < 0 || y0 < 0 || x1 < 0 || y1 < 0 {
      NegativeEndpointDrawsNothing(img[..], w, h, x0, y0, x1, y1, color);
      return;
    }
    TraceLine(img, w, h, x0, y0, x1, y1, color);
  }

  /** The Bresenham loop of drawLine, once the endpoints have passed the
      negative-coordinate test. */
  method TraceLine(img: array<Color>, w: int, h: int, x0: int, y0: int, x1: int, y1: int, color: Color)
    requires w > 0 && h > 0 && img.Length == w * h
    requires !Rejected(x0, y0, x1, y1)
    modifies img
    ensures img[..] == Overlay(old(img[..]), w, PathMask(LinePixels(x0, y0, x1, y1, w, h)), color)
  {
    var dx := Abs(x1 - x0);
    var dy := -Abs(y1 - y0);
    var sx := if x0 < x1 then 1 else -1;
    var sy := if y0 < y1 then 1 else -1;
    var err := dx + dy;
    var iters := 0;
    var maxIters := Max(w, h) * 2;
    var x, y := x0, y0;
    var plan := LinePlan(x1, y1, dx, dy, sx, sy, maxIters);
    ghost var whole := Walk(plan, Cursor(x, y, err), 0);
    assert whole == LinePixels(x0, y0, x1, y1, w, h);
    ghost var drawn: seq<Point> := [];
    EmptyPathPaintsNothing(img[..], w, h, color);
    while true
      invariant 0 <= iters <= maxIters
      invariant drawn + Walk(plan, Cursor(x, y, err), iters) == whole
      invariant img[..] == Overlay(old(img[..]), w, PathMask(drawn), color)
      decreases maxIters - iters
    {
      ghost var cur := Cursor(x, y, err);
      Plot(img, w, h, x, y, color, old(img[..]), PathMask(drawn));
      PathMaskSnoc(drawn, Point(x, y));
      if x == x1 && y == y1 {
        WalkStops(plan, cur, iters, drawn, whole);
        drawn := drawn + [Point(x, y)];
        break;
      }
      x, y, err := Step(plan, x, y, err);
      iters := iters + 1;
      if iters > maxIters {
        WalkStops(plan, cur, iters - 1, drawn, whole);
        drawn := drawn + [Point(cur.x, cur.y)];
        break;
      }
      WalkMoves(plan, cur, iters - 1, drawn, whole);
      drawn := drawn + [Point(cur.x, cur.y)];
    }
  }

  /** The update after a pixel: both tests use the doubled error e2 taken
      before either update. */
  method Step(p: LinePlan, x: int, y: int, err: int) returns (x': int, y': int, err': int)
    ensures Cursor(x', y', err') == Advance(p, Cursor(x, y, err))
  {
    x', y', err' := x, y, err;
    var e2 := 2 * err;
    if e2 >= p.dy {
      err' := err' + p.dy;
      x' := x' + p.sx;
    }
    if e2 <= p.dx {
      err' := err' + p.dx;
      y' := y' + p.sy;
    }
  }

  lemma PathMaskSnoc(path: seq<Point>, q: Point)
    ensures PathMask(path + [q]) == PathMask(path) + iset{q}
  {
  }

  /** The pass that plots the target, or whose counter then exceeds the cap,
      plots the last pixel of the walk. */
  lemma WalkStops(p: LinePlan, c: Cursor, iters: int, drawn: seq<Point>, whole: seq<Point>)
    requires 0 <= iters <= p.maxIters && drawn + Walk(p, c, iters) == whole
    requires AtTarget(p, c) || iters + 1 > p.maxIters
    ensures drawn + [Point(c.x, c.y)] == whole
  {
  }

  /** Any other pass plots the head of the walk and continues from Advance. */
  lemma WalkMoves(p: LinePlan, c: Cursor, iters: int, drawn: seq<Point>, whole: seq<Point>)
    requires 0 <= iters < p.maxIters && drawn + Walk(p, c, iters) == whole && !AtTarget(p, c)
    ensures (drawn + [Point(c.x, c.y)]) + Walk(p, Advance(p, c), iters + 1) == whole
  {
    WalkUnfold(p, c, iters);
  }

  // ---------------------------------------------------------------------------
  // Properties of the walk

  /** A segment with a negative endpoint coordinate leaves the framebuffer as it was. */
  lemma NegativeEndpointDrawsNothing(img: seq<Color>, w: int, h: int, x0: int, y0: int, x1: int, y1: int, color: Color)
    requires w > 0 && h > 0 && |img| == w * h
    requires Rejected(x0, y0, x1, y1)
    ensures Overlay(img, w, PathMask(LinePixels(x0, y0, x1, y1, w, h)), color) == img
  {
    EmptyPathPaintsNothing(img, w, h, color);
  }

  /** Each pass moves x by 0 or sx and y by 0 or sy, and never stands still. */
  predicate StepShape(p: LinePlan, a: Point, b: Point) {
    (b.x == a.x || b.x == a.x + p.sx) && (b.y == a.y || b.y == a.y + p.sy) && a != b
  }

  predicate Connected(p: LinePlan, path: seq<Point>) {
    forall k :: 0 <= k < |path| - 1 ==> StepShape(p, path[k], path[k + 1])
  }

  lemma {:induction false} WalkSteps(p: LinePlan, c: Cursor, iters: int)
    requires WellFormed(p) && 0 <= iters <= p.maxIters
    decreases p.maxIters - iters
    ensures Connected(p, Walk(p, c, iters))
  {
    if !(AtTarget(p, c) || iters + 1 > p.maxIters) {
      var c' := Advance(p, c);
      var rest := Walk(p, c', iters + 1);
      WalkSteps(p, c', iters + 1);
      assert StepShape(p, Point(c.x, c.y), rest[0]);
      var path := Walk(p, c, iters);
      assert path == [Point(c.x, c.y)] + rest;
      forall k | 1 <= k < |path| - 1
        ensures StepShape(p, path[k], path[k + 1])
      {
        var j := k - 1;
        assert StepShape(p, rest[j], rest[j + 1]);
        assert path[k] == rest[j] && path[k + 1] == rest[j + 1];
      }
    }
  }

  /** The Bresenham invariant. With a and b the distances still to go along x
      and y (measured in the step directions) and ry = -dy the absolute rise,
      a stays within [0, dx], b within [0, ry], and the error term equals
      dx - ry + a*ry - b*dx. */
  function ToGoX(p: LinePlan, c: Cursor): int { (p.x1 - c.x) * p.sx }
  function ToGoY(p: LinePlan, c: Cursor): int { (p.y1 - c.y) * p.sy }

  predicate InBox(p: LinePlan, c: Cursor) {
    0 <= ToGoX(p, c) <= p.dx && 0 <= ToGoY(p, c) <= -p.dy
  }

  predicate Tracking(p: LinePlan, c: Cursor) {
    WellFormed(p) && InBox(p, c) &&
    c.err == p.dx + p.dy + ToGoX(p, c) * (-p.dy) - ToGoY(p, c) * p.dx
  }

  /** The arithmetic of one pass, on the distances to go: at least one axis
      steps, an axis that has arrived does not step, and the error term keeps
      its relation to the new distances. */
  lemma BresenhamStep(dx: int, ry: int, a: int, b: int, err: int)
    requires dx >= 0 && ry >= 0 && 0 <= a <= dx && 0 <= b <= ry && a + b > 0
    requires err == dx - ry + a * ry - b * dx
    ensures var xStep, yStep := 2 * err >= -ry, 2 * err <= dx;
      (xStep || yStep) && (xStep ==> a >= 1) && (yStep ==> b >= 1) &&
      var a', b' := (if xStep then a - 1 else a), (if yStep then b - 1 else b);
      err + (if xStep then -ry else 0) + (if yStep then dx else 0) == dx - ry + a' * ry - b' * dx
  {
    if a == 0 {
      // x has arrived: dx*(1-b) <= 0 < ry, so the x test fails.
      MulMonotone(1, b, dx);
    }
    if b == 0 {
      // y has arrived: ry*(1-a) <= 0 < dx, so the y test fails.
      MulMonotone(1, a, ry);
    }
    assert (a - 1) * ry == a * ry - ry;
    assert (b - 1) * dx == b * dx - dx;
  }

  /** The distance to go along an axis after a step of sign s towards t. */
  lemma ToGoAfterStep(t: int, v: int, s: int)
    requires s == 1 || s == -1
    ensures (t - (v + s)) * s == (t - v) * s - 1
  {
  }

  /** One pass keeps the invariant and brings the cursor strictly closer. */
  lemma AdvanceTracks(p: LinePlan, c: Cursor)
    requires Tracking(p, c) && !AtTarget(p, c)
    ensures Tracking(p, Advance(p, c))
    ensures ToGoX(p, Advance(p, c)) + ToGoY(p, Advance(p, c)) < ToGoX(p, c) + ToGoY(p, c)
  {
    Arrival(p, c);
    BresenhamStep(p.dx, -p.dy, ToGoX(p, c), ToGoY(p, c), c.err);
    AdvanceMoves(p, c);
  }

  /** An axis has nothing left to go exactly when the cursor is on the
      target's coordinate. */
  lemma Arrival(p: LinePlan, c: Cursor)
    requires WellFormed(p)
    ensures ToGoX(p, c) == 0 <==> c.x == p.x1
    ensures ToGoY(p, c) == 0 <==> c.y == p.y1
  {
  }

  /** What one pass does to the distances to go and to the error term. */
  lemma AdvanceMoves(p: LinePlan, c: Cursor)
    requires WellFormed(p)
    ensures var xStep, yStep, c' := 2 * c.err >= p.dy, 2 * c.err <= p.dx, Advance(p, c);
      ToGoX(p, c') == ToGoX(p, c) - (if xStep then 1 else 0) &&
      ToGoY(p, c') == ToGoY(p, c) - (if yStep then 1 else 0) &&
      c'.err == c.err + (if xStep then p.dy else 0) + (if yStep then p.dx else 0)
  {
    if 2 * c.err >= p.dy { ToGoAfterStep(p.x1, c.x, p.sx); }
    if 2 * c.err <= p.dx { ToGoAfterStep(p.y1, c.y, p.sy); }
  }

  /** Under the invariant every plotted pixel lies between start and target. */
  lemma {:induction false} WalkInBox(p: LinePlan, c: Cursor, iters: int)
    requires Tracking(p, c) && 0 <= iters <= p.maxIters
    decreases p.maxIters - iters
    ensures forall q :: q in Walk(p, c, iters) ==> InBox(p, Cursor(q.x, q.y, 0))
  {
    if !(AtTarget(p, c) || iters + 1 > p.maxIters) {
      AdvanceTracks(p, c);
      WalkInBox(p, Advance(p, c), iters + 1);
    }
  }

  /** Under the invariant, a cap that leaves room for a + b more passes is
      never reached: the walk ends on the target. */
  lemma {:induction false} WalkReaches(p: LinePlan, c: Cursor, iters: int)
    requires Tracking(p, c) && 0 <= iters <= p.maxIters
    requires ToGoX(p, c) + ToGoY(p, c) <= p.maxIters - iters
    decreases p.maxIters - iters
    ensures var path := Walk(p, c, iters); path[|path| - 1] == Point(p.x1, p.y1)
  {
    if !AtTarget(p, c) {
      AdvanceTracks(p, c);
      WalkReaches(p, Advance(p, c), iters + 1);
    }
  }

  lemma StartTracks(x0: int, y0: int, x1: int, y1: int, w: int, h: int)
    requires w > 0 && h > 0
    ensures var p := Plan(x0, y0, x1, y1, w, h);
      var c := Cursor(x0, y0, p.dx + p.dy);
      Tracking(p, c) && ToGoX(p, c) == p.dx && ToGoY(p, c) == -p.dy
  {
    var p := Plan(x0, y0, x1, y1, w, h);
    var c := Cursor(x0, y0, p.dx + p.dy);
    assert ToGoX(p, c) == p.dx;
    assert ToGoY(p, c) == -p.dy;
  }

  /** The failsafe bounds the loop: drawLine plots at most 2*max(w, h) + 1
      pixels, starting at (x0, y0), and when its last pixel is not the target
      the cap was exhausted. */
  lemma LinePassBound(x0: int, y0: int, x1: int, y1: int, w: int, h: int)
    requires w > 0 && h > 0 && !Rejected(x0, y0, x1, y1)
    ensures var path := LinePixels(x0, y0, x1, y1, w, h);
      1 <= |path| <= 2 * Max(w, h) + 1 && path[0] == Point(x0, y0) &&
      (path[|path| - 1] != Point(x1, y1) ==> |path| == 2 * Max(w, h) + 1)
  {
    var p := Plan(x0, y0, x1, y1, w, h);
    WalkShape(p, Cursor(x0, y0, p.dx + p.dy), 0);
  }

  predicate Between(v: int, a: int, b: int) {
    (a <= v <= b) || (b <= v <= a)
  }

  /** drawLine never leaves the bounding box of its endpoints: the walk does
      not overshoot the target in either coordinate, whatever the cap. */
  lemma LineInBoundingBox(x0: int, y0: int, x1: int, y1: int, w: int, h: int)
    requires w > 0 && h > 0
    ensures forall q :: q in LinePixels(x0, y0, x1, y1, w, h) ==>
      Between(q.x, x0, x1) && Between(q.y, y0, y1)
  {
    if !Rejected(x0, y0, x1, y1) {
      var p := Plan(x0, y0, x1, y1, w, h);
      StartTracks(x0, y0, x1, y1, w, h);
      WalkInBox(p, Cursor(x0, y0, p.dx + p.dy), 0);
    }
  }

  /** A segment whose endpoints are both on screen is drawn in full: the walk
      starts at (x0, y0), ends at (x1, y1) without the cap cutting it short,
      consists of 8-connected steps, and plots only on-screen pixels. */
  lemma OnScreenLineComplete(x0: int, y0: int, x1: int, y1: int, w: int, h: int)
    requires w > 0 && h > 0
    requires OnScreen(Point(x0, y0), w, h) && OnScreen(Point(x1, y1), w, h)
    ensures var path := LinePixels(x0, y0, x1, y1, w, h);
      |path| >= 1 && path[0] == Point(x0, y0) && path[|path| - 1] == Point(x1, y1) &&
      Connected(Plan(x0, y0, x1, y1, w, h), path) &&
      (forall q :: q in path ==> OnScreen(q, w, h))
  {
    var p := Plan(x0, y0, x1, y1, w, h);
    var c := Cursor(x0, y0, p.dx + p.dy);
    StartTracks(x0, y0, x1, y1, w, h);
    WalkReaches(p, c, 0);
    WalkSteps(p, c, 0);
    LineInBoundingBox(x0, y0, x1, y1, w, h);
  }
}
