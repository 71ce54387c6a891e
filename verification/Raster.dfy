/**
 The framebuffer rasterisers: Bresenham lines, midpoint circles and filled circles, clipped to the screen.
 Coordinates are ideal integers. Each algorithm is first given as the list of points it visits; the drawing
 methods paint exactly the on-screen part of what that list describes.
 */
module Raster {
  import Bytes

  function Abs(a: int): nat {
    if a < 0 then -a else a
  }

  datatype Point = Point(x: int, y: int)

  // ---------- the midpoint circle ----------

  /** The points of one octant visited from state (x, y, d). */
  function Octant(x: int, y: int, d: int): (trace: seq<Point>)
    decreases y - x + 1
  {
    if x > y then []
    else [Point(x, y)] + if d < 0 then Octant(x + 1, y, d + 4 * x + 6) else Octant(x + 1, y - 1, d + 4 * (x - y) + 10)
  }

  function CirclePoints(r: nat): seq<Point> {
    Octant(0, r, 3 - 2 * r)
  }

  /** How far a point is from the circle: its squared distance to the centre minus the squared radius. */
  function Excess(r: int, x: int, y: int): int {
    x * x + y * y - r * r
  }

  /** The loop invariant: what `d` measures, and how close a visited point is. */
  ghost predicate OnTrack(r: int, x: int, y: int, d: int)
  {
    && 0 <= x && y <= r
    && d == 2 * Excess(r, x, y) + 4 * x - 2 * y + 3
    && (x <= y ==> -y <= Excess(r, x, y) <= y - 1)
  }

  lemma ExcessSteps(r: int, x: int, y: int)
    ensures Excess(r, x + 1, y) == Excess(r, x, y) + 2 * x + 1
    ensures Excess(r, x, y - 1) == Excess(r, x, y) - 2 * y + 1
  {
  }

  /** `d` is the decision value of the midpoint algorithm: 2(x+1)^2 + y^2 + (y-1)^2 - 2r^2. */
  lemma DecisionValue(r: int, x: int, y: int, d: int)
    requires OnTrack(r, x, y, d)
    ensures d == 2 * (x + 1) * (x + 1) + y * y + (y - 1) * (y - 1) - 2 * r * r
  {
  }

  lemma TrackStep(r: int, x: int, y: int, d: int)
    requires OnTrack(r, x, y, d) && x <= y
    ensures d < 0 ==> OnTrack(r, x + 1, y, d + 4 * x + 6) && Excess(r, x + 1, y) <= y - 1
    ensures d >= 0 ==> OnTrack(r, x + 1, y - 1, d + 4 * (x - y) + 10) && Excess(r, x + 1, y) >= y
  {
    hide Excess;
    ExcessSteps(r, x, y);
    ExcessSteps(r, x + 1, y);
  }

  /** A visited point: in its octant, with `y` the integer nearest to the square root of r^2 - x^2. */
  ghost predicate NearCircle(r: int, p: Point)
  {
    0 <= p.x <= p.y <= r && -p.y <= Excess(r, p.x, p.y) <= p.y - 1
  }

  lemma NearestInteger(r: int, p: Point)
    requires NearCircle(r, p)
    ensures (2 * p.y - 1) * (2 * p.y - 1) < 4 * (r * r - p.x * p.x) < (2 * p.y + 1) * (2 * p.y + 1)
  {
    assert (2 * p.y - 1) * (2 * p.y - 1) == 4 * (p.y * p.y) - 4 * p.y + 1;
    assert (2 * p.y + 1) * (2 * p.y + 1) == 4 * (p.y * p.y) + 4 * p.y + 1;
  }

  /** Every point visited is near the circle, and the columns visited are 0, 1, 2, ... without a gap. */
  lemma {:induction false} OctantNear(r: int, x: int, y: int, d: int)
    requires OnTrack(r, x, y, d)
    ensures forall k :: 0 <= k < |Octant(x, y, d)| ==>
              NearCircle(r, Octant(x, y, d)[k]) && Octant(x, y, d)[k].x == x + k
    decreases y - x + 1
  {
    hide Excess;
    if x <= y {
      TrackStep(r, x, y, d);
      if d < 0 {
        OctantNear(r, x + 1, y, d + 4 * x + 6);
      } else {
        OctantNear(r, x + 1, y - 1, d + 4 * (x - y) + 10);
      }
    }
  }

  lemma Bigger(a: int, k: int)
    requires a >= 0 && k >= 1
    ensures a * k >= a
  {
  }

  lemma SquareGap(a: int, b: int)
    requires 0 <= a < b
    ensures b * b >= a * a + a + b
  {
    var k := b - a;
    Bigger(a, k);
    Bigger(k, k);
    assert (a + k) * (a + k) == a * a + 2 * (a * k) + k * k;
  }

  lemma GrowsFrom(a: int, b: int)
    requires 1 <= b <= a
    ensures a * a - a >= b * b - b && a * a >= b * b
  {
    if b < a {
      SquareGap(b, a);
    }
  }

  lemma ExcessGap(r: int, x: int, a: int, b: int)
    requires 0 <= a < b
    ensures Excess(r, x, b) >= Excess(r, x, a) + a + b
  {
    SquareGap(a, b);
  }

  /** A column of the octant has one point near the circle. */
  lemma OnePerColumn(r: int, x: int, y: int, y': int)
    requires NearCircle(r, Point(x, y)) && NearCircle(r, Point(x, y'))
    ensures y == y'
  {
    hide Excess;
    if y < y' {
      ExcessGap(r, x, y, y');
    } else if y' < y {
      ExcessGap(r, x, y', y);
    }
  }

  /** Once the diagonal is passed, no point of the octant further on is near the circle. */
  lemma PastDiagonal(r: int, x: int, p: Point)
    requires x >= 1 && Excess(r, x, x) >= x && x <= p.x <= p.y
    ensures !NearCircle(r, p)
  {
    GrowsFrom(p.x, x);
    GrowsFrom(p.y, x);
  }

  /** The step that passes the diagonal passes it outside the circle. */
  lemma DiagonalStep(r: int, x: int, y: int, d: int)
    requires OnTrack(r, x, y, d) && 0 <= x <= y
    ensures d < 0 && x + 1 > y ==> Excess(r, x + 1, x + 1) >= x + 1
    ensures d >= 0 && x + 1 > y - 1 ==> Excess(r, x + 1, x + 1) >= x + 1
  {
    hide Excess;
    TrackStep(r, x, y, d);
    ExcessSteps(r, x, x);
    ExcessSteps(r, x + 1, x + 1);
    ExcessSteps(r, x, x + 1);
  }

  /** From any state on the way, every near point of the columns still to come is visited. */
  lemma {:induction false} OctantAll(r: int, x: int, y: int, d: int, p: Point)
    requires OnTrack(r, x, y, d) && NearCircle(r, p) && p.x >= x
    requires x > y ==> x >= 1 && Excess(r, x, x) >= x
    ensures p in Octant(x, y, d)
    decreases y - x + 1
  {
    hide Excess, Octant;
    if x > y {
      PastDiagonal(r, x, p);
    } else {
      OctantHead(x, y, d);
      if p.x == x {
        OnePerColumn(r, x, y, p.y);
      } else {
        TrackStep(r, x, y, d);
        DiagonalStep(r, x, y, d);
        if d < 0 {
          OctantAll(r, x + 1, y, d + 4 * x + 6, p);
        } else {
          OctantAll(r, x + 1, y - 1, d + 4 * (x - y) + 10, p);
        }
      }
    }
  }

  lemma OctantHead(x: int, y: int, d: int)
    requires x <= y
    ensures Octant(x, y, d) == [Point(x, y)] +
            if d < 0 then Octant(x + 1, y, d + 4 * x + 6) else Octant(x + 1, y - 1, d + 4 * (x - y) + 10)
  {
  }

  /** The points visited are exactly the lattice points of the octant near the circle. */
  lemma CircleExact(r: nat, p: Point)
    requires r >= 1
    ensures p in CirclePoints(r) <==> NearCircle(r, p)
  {
    hide Excess, Octant;
    StartOnTrack(r);
    OctantNear(r, 0, r, 3 - 2 * r);
    if NearCircle(r, p) {
      OctantAll(r, 0, r, 3 - 2 * r, p);
    }
  }

  /** The spans a filled circle draws for a point of the octant, relative to the centre. */
  predicate InSpans(p: Point, dx: int, dy: int) {
    (Abs(dy) == p.y && Abs(dx) <= p.x) || (Abs(dy) == p.x && Abs(dx) <= p.y)
  }

  predicate InSomeSpan(trace: seq<Point>, dx: int, dy: int) {
    exists k :: 0 <= k < |trace| && InSpans(trace[k], dx, dy)
  }

  lemma {:induction false} OctantStep(done: seq<Point>, x: int, y: int, d: int, whole: seq<Point>)
    requires x <= y && done + Octant(x, y, d) == whole
    ensures d < 0 ==> done + [Point(x, y)] + Octant(x + 1, y, d + 4 * x + 6) == whole
    ensures d >= 0 ==> done + [Point(x, y)] + Octant(x + 1, y - 1, d + 4 * (x - y) + 10) == whole
  {
    var rest := if d < 0 then Octant(x + 1, y, d + 4 * x + 6) else Octant(x + 1, y - 1, d + 4 * (x - y) + 10);
    assert Octant(x, y, d) == [Point(x, y)] + rest;
    assert done + ([Point(x, y)] + rest) == done + [Point(x, y)] + rest;
  }

  lemma OctantDone(x: int, y: int, d: int)
    requires x > y
    ensures Octant(x, y, d) == []
  {
  }

  /** The eight mirror images of a point of the octant, relative to the centre. */
  predicate IsMirror(p: Point, dx: int, dy: int) {
    (Abs(dx) == p.x && Abs(dy) == p.y) || (Abs(dx) == p.y && Abs(dy) == p.x)
  }

  predicate IsSomeMirror(trace: seq<Point>, dx: int, dy: int) {
    exists k :: 0 <= k < |trace| && IsMirror(trace[k], dx, dy)
  }

  lemma NoSpan()
    ensures forall dx, dy :: !InSomeSpan([], dx, dy)
  {
  }

  lemma OneMoreSpan(trace: seq<Point>, p: Point)
    ensures forall dx, dy :: InSomeSpan(trace + [p], dx, dy) <==> InSomeSpan(trace, dx, dy) || InSpans(p, dx, dy)
  {
    forall dx, dy | InSomeSpan(trace, dx, dy)
      ensures InSomeSpan(trace + [p], dx, dy)
    {
      var k :| 0 <= k < |trace| && InSpans(trace[k], dx, dy);
      assert (trace + [p])[k] == trace[k];
    }
    assert (trace + [p])[|trace|] == p;
  }

  lemma NoMirror()
    ensures forall dx, dy :: !IsSomeMirror([], dx, dy)
  {
  }

  lemma OneMoreMirror(trace: seq<Point>, p: Point)
    ensures forall dx, dy :: IsSomeMirror(trace + [p], dx, dy) <==> IsSomeMirror(trace, dx, dy) || IsMirror(p, dx, dy)
  {
    forall dx, dy | IsSomeMirror(trace, dx, dy)
      ensures IsSomeMirror(trace + [p], dx, dy)
    {
      var k :| 0 <= k < |trace| && IsMirror(trace[k], dx, dy);
      assert (trace + [p])[k] == trace[k];
    }
    assert (trace + [p])[|trace|] == p;
  }

  lemma SquareLess(a: nat, b: nat)
    requires a * a < b * b
    ensures a < b
  {
  }

  /** In the row of its own column number, a visited point reaches as far as the disc does. */
  lemma RowReaches(r: int, x: nat, y: nat, a: nat)
    requires 0 <= Excess(r, x, y) + y && a * a + x * x <= r * r
    ensures a <= y
  {
    assert (y + 1) * (y + 1) == y * y + 2 * y + 1;
    SquareLess(a, y + 1);
  }

  /** When the next column leaves row `y`, the row is already filled as far as the disc goes. */
  lemma RowFilled(r: int, x: nat, y: nat, a: nat)
    requires Excess(r, x + 1, y) > 0 && a * a + y * y <= r * r
    ensures a <= x
  {
    SquareLess(a, x + 1);
  }

  /** From any state on the way, the rows still to come cover the disc. */
  lemma {:induction false} OctantCovers(r: int, x: nat, y: nat, d: int, a: nat, b: nat)
    requires OnTrack(r, x, y, d) && x <= b <= y && a * a + b * b <= r * r
    ensures InSomeSpan(Octant(x, y, d), a, b)
    decreases y - x + 1
  {
    hide Excess;
    var trace := Octant(x, y, d);
    TrackStep(r, x, y, d);
    if b == x {
      RowReaches(r, x, y, a);
      assert InSpans(trace[0], a, b);
    } else if d >= 0 && b == y {
      RowFilled(r, x, y, a);
      assert InSpans(trace[0], a, b);
    } else {
      var rest := if d < 0 then Octant(x + 1, y, d + 4 * x + 6) else Octant(x + 1, y - 1, d + 4 * (x - y) + 10);
      if d < 0 {
        OctantCovers(r, x + 1, y, d + 4 * x + 6, a, b);
      } else {
        OctantCovers(r, x + 1, y - 1, d + 4 * (x - y) + 10, a, b);
      }
      var k :| 0 <= k < |rest| && InSpans(rest[k], a, b);
      assert trace[k + 1] == rest[k];
    }
  }

  lemma StartOnTrack(r: nat)
    requires r >= 1
    ensures OnTrack(r, 0, r, 3 - 2 * r)
  {
  }

  lemma AbsSquare(a: int)
    ensures Abs(a) * Abs(a) == a * a
  {
  }

  lemma SquareMonotone(a: nat, b: nat)
    requires a <= b
    ensures a * a <= b * b
  {
  }

  /**
   The spans of a filled circle contain every lattice point of the disc, and nothing farther out than a
   squared distance of r^2 + r - 1.
   */
  lemma FilledCircle(r: nat, dx: int, dy: int)
    requires r >= 1
    ensures dx * dx + dy * dy <= r * r ==> InSomeSpan(CirclePoints(r), dx, dy)
    ensures InSomeSpan(CirclePoints(r), dx, dy) ==> dx * dx + dy * dy <= r * r + r - 1
  {
    hide InSomeSpan;
    if dx * dx + dy * dy <= r * r {
      DiscCovered(r, dx, dy);
    }
    if InSomeSpan(CirclePoints(r), dx, dy) {
      SpansNear(r, dx, dy);
    }
  }

  lemma DiscCovered(r: nat, dx: int, dy: int)
    requires r >= 1 && dx * dx + dy * dy <= r * r
    ensures InSomeSpan(CirclePoints(r), dx, dy)
  {
    hide Octant, OnTrack;
    StartOnTrack(r);
    AbsSquare(dx);
    AbsSquare(dy);
    if Abs(dy) > r {
      SquareMonotone(r + 1, Abs(dy));
    }
    OctantCovers(r, 0, r, 3 - 2 * r, Abs(dx), Abs(dy));
    var k :| 0 <= k < |CirclePoints(r)| && InSpans(CirclePoints(r)[k], Abs(dx), Abs(dy));
    assert InSpans(CirclePoints(r)[k], dx, dy);
  }

  lemma SpansNear(r: nat, dx: int, dy: int)
    requires r >= 1 && InSomeSpan(CirclePoints(r), dx, dy)
    ensures dx * dx + dy * dy <= r * r + r - 1
  {
    hide Octant, OnTrack, NearCircle;
    StartOnTrack(r);
    OctantNear(r, 0, r, 3 - 2 * r);
    var k :| 0 <= k < |CirclePoints(r)| && InSpans(CirclePoints(r)[k], dx, dy);
    SpanNear(r, CirclePoints(r)[k], dx, dy);
  }

  lemma SpanNear(r: nat, p: Point, dx: int, dy: int)
    requires NearCircle(r, p) && InSpans(p, dx, dy)
    ensures dx * dx + dy * dy <= r * r + r - 1
  {
    AbsSquare(dx);
    AbsSquare(dy);
    if Abs(dy) == p.y && Abs(dx) <= p.x {
      SquareMonotone(Abs(dx), p.x);
    } else {
      SquareMonotone(Abs(dx), p.y);
    }
  }

  // ---------- Bresenham lines ----------

  /** One step of the line loop, in steps taken along each axis and the error term. */
  datatype LineState = LineState(i: int, j: int, err: int)

  function LineNext(dx: nat, dy: nat, s: LineState): LineState {
    var e2 := 2 * s.err;
    var t := if e2 > -(dy as int) then LineState(s.i + 1, s.j, s.err - dy) else s;
    if e2 < dx then LineState(t.i, t.j + 1, t.err + dx) else t
  }

  function LineAt(dx: nat, dy: nat, k: nat): LineState {
    if k == 0 then LineState(0, 0, dx - dy) else LineNext(dx, dy, LineAt(dx, dy, k - 1))
  }

  function Max(a: nat, b: nat): nat {
    if a > b then a else b
  }

  /** The deviation from the ideal line, scaled by the longer side. */
  function Deviation(dx: nat, dy: nat, s: LineState): int {
    s.j * dx - s.i * dy
  }

  /**
   `k` steps along the longer axis, at most half a pixel off the ideal line on the other; exactly half a pixel is
   below the line when the x axis is the longer one, and above it otherwise.
   */
  ghost predicate OnLine(dx: nat, dy: nat, k: nat, s: LineState)
  {
    && s.err == dx - dy + Deviation(dx, dy, s)
    && (if dx >= dy then s.i == k else s.j == k)
    && 2 * Abs(Deviation(dx, dy, s)) <= Max(dx, dy)
    && (dx >= dy ==> -(dx as int) <= 2 * Deviation(dx, dy, s) < dx)
    && (dx < dy ==> -(dy as int) < 2 * Deviation(dx, dy, s) <= dy)
    && (dx == dy ==> Deviation(dx, dy, s) == 0)
  }

  lemma DeviationSteps(dx: nat, dy: nat, s: LineState)
    ensures Deviation(dx, dy, s.(i := s.i + 1)) == Deviation(dx, dy, s) - dy
    ensures Deviation(dx, dy, s.(j := s.j + 1)) == Deviation(dx, dy, s) + dx
    ensures Deviation(dx, dy, LineState(s.i + 1, s.j + 1, s.err)) == Deviation(dx, dy, s) - dy + dx
  {
  }

  lemma DeviationIgnoresErr(dx: nat, dy: nat, i: int, j: int, e: int, e': int)
    ensures Deviation(dx, dy, LineState(i, j, e)) == Deviation(dx, dy, LineState(i, j, e'))
  {
  }

  /** After `k` steps the line is within half a pixel of the ideal one, and has moved `k` along the longer axis. */
  lemma {:induction false} LineBound(dx: nat, dy: nat, k: nat)
    requires dx > 0 && dy > 0
    ensures OnLine(dx, dy, k, LineAt(dx, dy, k))
  {
    if k == 0 {
      assert Deviation(dx, dy, LineState(0, 0, dx - dy)) == 0;
    } else {
      LineBound(dx, dy, k - 1);
      LineStep(dx, dy, k - 1, LineAt(dx, dy, k - 1));
    }
  }

  lemma LineStep(dx: nat, dy: nat, k: nat, s: LineState)
    requires dx > 0 && dy > 0 && OnLine(dx, dy, k, s)
    ensures OnLine(dx, dy, k + 1, LineNext(dx, dy, s))
  {
    hide Deviation;
    var t := LineNext(dx, dy, s);
    DeviationSteps(dx, dy, s);
    DeviationIgnoresErr(dx, dy, s.i + 1, s.j, s.err, t.err);
    DeviationIgnoresErr(dx, dy, s.i, s.j + 1, s.err, t.err);
    DeviationIgnoresErr(dx, dy, s.i + 1, s.j + 1, s.err, t.err);
  }

  lemma DeviationAtEnd(dx: nat, dy: nat, s: LineState)
    ensures s.i == dx ==> Deviation(dx, dy, s) == (s.j - dy) * dx
    ensures s.j == dy ==> Deviation(dx, dy, s) == (dx - s.i) * dy
  {
  }

  /** The endpoint is reached after exactly max(dx, dy) steps, and not before. */
  lemma LineEnds(dx: nat, dy: nat, k: nat)
    requires dx > 0 && dy > 0 && k <= Max(dx, dy)
    ensures LineAt(dx, dy, k).i == dx && LineAt(dx, dy, k).j == dy <==> k == Max(dx, dy)
  {
    hide Deviation, LineAt;
    LineBound(dx, dy, k);
    var s := LineAt(dx, dy, k);
    DeviationAtEnd(dx, dy, s);
    if k == Max(dx, dy) {
      if dx >= dy {
        Bytes.SmallMultiple(s.j - dy, dx);
      } else {
        Bytes.SmallMultiple(dx - s.i, dy);
      }
    }
  }

  function Sign(a: int, b: int): int {
    if a < b then 1 else -1
  }

  /** The pixel of the k-th step of a line. */
  function LinePoint(x0: int, y0: int, x1: int, y1: int, k: nat): Point {
    var s := LineAt(Abs(x1 - x0), Abs(y1 - y0), k);
    Point(x0 + Sign(x0, x1) * s.i, y0 + Sign(y0, y1) * s.j)
  }

  /** The pixels of a line: all between the ends on an axis-aligned one, the visited points otherwise. */
  ghost predicate OnSegment(x0: int, y0: int, x1: int, y1: int, px: int, py: int)
  {
    if y0 == y1 then py == y0 && ((x0 <= px <= x1) || (x1 <= px <= x0))
    else if x0 == x1 then px == x0 && ((y0 <= py <= y1) || (y1 <= py <= y0))
    else exists k: nat :: k <= Max(Abs(x1 - x0), Abs(y1 - y0)) && LinePoint(x0, y0, x1, y1, k) == Point(px, py)
  }

  /** A multiple of `d` is determined by an interval of length `d`. */
  lemma OneMultiple(d: nat, a: int, b: int, shift: int)
    requires d > 0 && -(d as int) <= 2 * (a * d - shift) < d && -(d as int) <= 2 * (b * d - shift) < d
    ensures a == b
  {
    assert (a - b) * d == (a * d - shift) - (b * d - shift);
    Bytes.SmallMultiple(a - b, d);
  }

  lemma OneMultipleBelow(d: nat, a: int, b: int, shift: int)
    requires d > 0 && -(d as int) < 2 * (shift - a * d) <= d && -(d as int) < 2 * (shift - b * d) <= d
    ensures a == b
  {
    assert (a - b) * d == (shift - b * d) - (shift - a * d);
    Bytes.SmallMultiple(a - b, d);
  }

  /** A multiple that close to one between 0 and `n` times `d` is one of them. */
  lemma MultipleInside(d: nat, a: int, n: nat, shift: int)
    requires d > 0 && 0 <= shift <= n * d && -(d as int) <= 2 * (a * d - shift) <= d
    ensures 0 <= a && (2 * (a * d - shift) < d ==> a <= n)
  {
    if a < 0 {
      NegativeMultiple(d, a);
    } else if a > n {
      Bytes.MulLe(n + 1, a, d);
      Bytes.NextMultiple(n, d);
    }
  }

  lemma NegativeMultiple(d: nat, a: int)
    requires a < 0
    ensures a * d <= -(d as int)
  {
  }

  /**
   The pixel `i` steps along the x axis and `j` along the y axis from the start of a line lies on it: inside the
   rectangle, and nearest to the ideal line along the shorter axis.
   */
  ghost predicate Nearest(dx: nat, dy: nat, i: int, j: int)
  {
    && 0 <= i <= dx && 0 <= j <= dy
    && (dx >= dy > 0 ==> -(dx as int) <= 2 * (j * dx - i * dy) < dx)
    && (dy > dx > 0 ==> -(dy as int) < 2 * (j * dx - i * dy) <= dy)
  }

  lemma LineInside(dx: nat, dy: nat, k: nat)
    requires dx > 0 && dy > 0 && k <= Max(dx, dy)
    ensures Nearest(dx, dy, LineAt(dx, dy, k).i, LineAt(dx, dy, k).j)
  {
    hide LineAt, Nearest, OnLine;
    LineBound(dx, dy, k);
    if dx >= dy {
      WideInside(dx, dy, k, LineAt(dx, dy, k));
    } else {
      TallInside(dx, dy, k, LineAt(dx, dy, k));
    }
  }

  lemma WideInside(dx: nat, dy: nat, k: nat, s: LineState)
    requires dx >= dy > 0 && k <= dx && OnLine(dx, dy, k, s)
    ensures Nearest(dx, dy, s.i, s.j)
  {
    Bytes.MulLe(k, dx, dy);
    assert dx * dy == dy * dx;
    assert Deviation(dx, dy, s) == s.j * dx - k * dy;
    MultipleInside(dx, s.j, dy, k * dy);
  }

  lemma TallInside(dx: nat, dy: nat, k: nat, s: LineState)
    requires dy > dx > 0 && k <= dy && OnLine(dx, dy, k, s)
    ensures Nearest(dx, dy, s.i, s.j)
  {
    Bytes.MulLe(k, dy, dx);
    assert dx * dy == dy * dx;
    assert Deviation(dx, dy, s) == k * dx - s.i * dy;
    BelowInside(dy, s.i, dx, k * dx);
  }

  lemma BelowInside(d: nat, a: int, n: nat, shift: int)
    requires d > 0 && 0 <= shift <= n * d && -(d as int) < 2 * (shift - a * d) <= d
    ensures 0 <= a <= n
  {
    if a < 0 {
      NegativeMultiple(d, a);
    } else if a > n {
      Bytes.MulLe(n + 1, a, d);
      Bytes.NextMultiple(n, d);
    }
  }

  /** The points visited are exactly the nearest ones. */
  lemma LineExact(dx: nat, dy: nat, i: int, j: int)
    requires dx > 0 && dy > 0
    ensures Nearest(dx, dy, i, j) <==>
            exists k: nat :: k <= Max(dx, dy) && LineAt(dx, dy, k).i == i && LineAt(dx, dy, k).j == j
  {
    hide LineAt;
    if k: nat :| k <= Max(dx, dy) && LineAt(dx, dy, k).i == i && LineAt(dx, dy, k).j == j {
      LineInside(dx, dy, k);
    }
    if Nearest(dx, dy, i, j) {
      var k: nat := if dx >= dy then i else j;
      LineBound(dx, dy, k);
      var s := LineAt(dx, dy, k);
      if dx >= dy {
        OneMultiple(dx, s.j, j, i * dy);
      } else {
        OneMultipleBelow(dy, s.i, i, j * dx);
      }
      assert s.i == i && s.j == j;
    }
  }

  /** The pixels of a line, axis-aligned or not, are exactly the nearest ones, both ends included. */
  lemma SegmentExact(x0: int, y0: int, x1: int, y1: int, px: int, py: int)
    ensures OnSegment(x0, y0, x1, y1, px, py) <==>
            Nearest(Abs(x1 - x0), Abs(y1 - y0), Along(x0, x1, px), Along(y0, y1, py))
    ensures OnSegment(x0, y0, x1, y1, x0, y0) && OnSegment(x0, y0, x1, y1, x1, y1)
  {
    SegmentIs(x0, y0, x1, y1, px, py);
    SegmentIs(x0, y0, x1, y1, x0, y0);
    SegmentIs(x0, y0, x1, y1, x1, y1);
    EndsNearest(Abs(x1 - x0), Abs(y1 - y0));
  }

  /** How far `p` is from `a`, counted towards `b`. */
  function Along(a: int, b: int, p: int): int {
    if a < b then p - a else a - p
  }

  lemma EndsNearest(dx: nat, dy: nat)
    ensures Nearest(dx, dy, 0, 0) && Nearest(dx, dy, dx, dy)
  {
    assert dy * dx == dx * dy;
  }

  lemma SegmentIs(x0: int, y0: int, x1: int, y1: int, px: int, py: int)
    ensures OnSegment(x0, y0, x1, y1, px, py) <==>
            Nearest(Abs(x1 - x0), Abs(y1 - y0), Along(x0, x1, px), Along(y0, y1, py))
  {
    hide LineAt, LinePoint, Nearest;
    if x0 != x1 && y0 != y1 {
      var dx, dy, i, j := Abs(x1 - x0), Abs(y1 - y0), Along(x0, x1, px), Along(y0, y1, py);
      LineExact(dx, dy, i, j);
      if k: nat :| k <= Max(dx, dy) && LinePoint(x0, y0, x1, y1, k) == Point(px, py) {
        PointAlong(x0, y0, x1, y1, px, py, k);
      }
      if k: nat :| k <= Max(dx, dy) && LineAt(dx, dy, k).i == i && LineAt(dx, dy, k).j == j {
        PointAlong(x0, y0, x1, y1, px, py, k);
      }
    } else {
      AxisNearest(x0, y0, x1, y1, px, py);
    }
  }

  lemma AxisNearest(x0: int, y0: int, x1: int, y1: int, px: int, py: int)
    requires x0 == x1 || y0 == y1
    ensures OnSegment(x0, y0, x1, y1, px, py) <==>
            Nearest(Abs(x1 - x0), Abs(y1 - y0), Along(x0, x1, px), Along(y0, y1, py))
  {
    hide LineAt, LinePoint;
  }

  lemma PointAlong(x0: int, y0: int, x1: int, y1: int, px: int, py: int, k: nat)
    requires x0 != x1 && y0 != y1
    ensures var s := LineAt(Abs(x1 - x0), Abs(y1 - y0), k);
            LinePoint(x0, y0, x1, y1, k) == Point(px, py) <==> s.i == Along(x0, x1, px) && s.j == Along(y0, y1, py)
  {
    hide LineAt;
  }

  // ---------- the framebuffer ----------

  type Color = x: int | 0 <= x < 0x1_0000_0000

  class Framebuffer {
    /** Row by row: `pixels[y, x]`. */
    const pixels: array2<Color>

    constructor (width: nat, height: nat)
      ensures fresh(pixels) && pixels.Length0 == height && pixels.Length1 == width
    {
      pixels := new Color[height, width]((_, _) => 0);
    }

    predicate InBounds(x: int, y: int) {
      0 <= x < pixels.Length1 && 0 <= y < pixels.Length0
    }

    method PutPixel(x: int, y: int, color: Color)
      modifies pixels
      ensures forall px, py :: InBounds(px, py) ==>
                pixels[py, px] == if px == x && py == y then color else old(pixels[py, px])
    {
      if InBounds(x, y) {
        pixels[y, x] := color;
      }
    }

    method HLine(x: int, y: int, w: int, color: Color)
      modifies pixels
      ensures forall px, py :: InBounds(px, py) ==>
                pixels[py, px] == if py == y && x <= px < x + w then color else old(pixels[py, px])
    {
      if y < 0 || y >= pixels.Length0 {
        return;
      }
      var from := if x < 0 then 0 else x;
      var to := if x + w > pixels.Length1 then pixels.Length1 else x + w;
      var i := from;
      while i < to
        invariant from <= i && (i <= to || i == from)
        invariant forall px, py :: InBounds(px, py) ==>
                    pixels[py, px] == if py == y && from <= px < i then color else old(pixels[py, px])
      {
        pixels[y, i] := color;
        i := i + 1;
      }
    }

    method VLine(x: int, y: int, h: int, color: Color)
      modifies pixels
      ensures forall px, py :: InBounds(px, py) ==>
                pixels[py, px] == if px == x && y <= py < y + h then color else old(pixels[py, px])
    {
      if x < 0 || x >= pixels.Length1 {
        return;
      }
      var from := if y < 0 then 0 else y;
      var to := if y + h > pixels.Length0 then pixels.Length0 else y + h;
      var i := from;
      while i < to
        invariant from <= i && (i <= to || i == from)
        invariant forall px, py :: InBounds(px, py) ==>
                    pixels[py, px] == if px == x && from <= py < i then color else old(pixels[py, px])
      {
        pixels[i, x] := color;
        i := i + 1;
      }
    }

    /** `fb_draw_line`: exactly the on-screen pixels of the segment are painted. */
    method DrawLine(x0: int, y0: int, x1: int, y1: int, color: Color)
      modifies pixels
      ensures forall px, py :: InBounds(px, py) ==>
                pixels[py, px] == if OnSegment(x0, y0, x1, y1, px, py) then color else old(pixels[py, px])
    {
      if y0 == y1 {
        var a, b := if x0 > x1 then x1 else x0, if x0 > x1 then x0 else x1;
        HLine(a, y0, b - a + 1, color);
        return;
      }
      if x0 == x1 {
        var a, b := if y0 > y1 then y1 else y0, if y0 > y1 then y0 else y1;
        VLine(x0, a, b - a + 1, color);
        return;
      }
      Bresenham(x0, y0, x1, y1, color);
    }

    /** The loop of `fb_draw_line`; it stops because the endpoint is met after max(dx, dy) steps. */
    method Bresenham(x0: int, y0: int, x1: int, y1: int, color: Color)
      requires x0 != x1 && y0 != y1
      modifies pixels
      ensures forall px, py :: InBounds(px, py) ==>
                pixels[py, px] == if OnSegment(x0, y0, x1, y1, px, py) then color else old(pixels[py, px])
    {
      hide LinePoint, Deviation;
      var dx: int, dy: int := Abs(x1 - x0), Abs(y1 - y0);
      var sx, sy := Sign(x0, x1), Sign(y0, y1);
      var x, y, err := x0, y0, dx - dy;
      ghost var k: nat := 0;
      while true
        invariant k <= Max(dx, dy)
        invariant var s := LineAt(dx, dy, k); err == s.err && x == x0 + sx * s.i && y == y0 + sy * s.j
        invariant forall px, py :: InBounds(px, py) ==>
                    pixels[py, px] == if Visited(x0, y0, x1, y1, k, px, py) then color else old(pixels[py, px])
        decreases Max(dx, dy) - k
      {
        PutPixel(x, y, color);
        VisitNext(x0, y0, x1, y1, k);
        LinePointIs(x0, y0, x1, y1, k);
        LineEnds(dx, dy, k);
        EndpointOffsets(x0, y0, x1, y1, LineAt(dx, dy, k));
        if x == x1 && y == y1 {
          break;
        }
        var e2 := 2 * err;
        if e2 > -dy {
          err := err - dy;
          x := x + sx;
        }
        if e2 < dx {
          err := err + dx;
          y := y + sy;
        }
        k := k + 1;
      }
      VisitedAll(x0, y0, x1, y1);
    }

    method FourSpans(cx: int, cy: int, x: int, y: int, color: Color)
      requires 0 <= x <= y
      modifies pixels
      ensures forall px, py :: InBounds(px, py) ==>
                pixels[py, px] == if InSpans(Point(x, y), px - cx, py - cy) then color else old(pixels[py, px])
    {
      HLine(cx - x, cy + y, 2 * x + 1, color);
      HLine(cx - x, cy - y, 2 * x + 1, color);
      HLine(cx - y, cy + x, 2 * y + 1, color);
      HLine(cx - y, cy - x, 2 * y + 1, color);
    }

    /**
     `fb_fill_circle`: on screen, every pixel of the disc is painted, and none farther out than a squared
     distance of r^2 + r - 1.
     */
    method FillCircle(cx: int, cy: int, r: int, color: Color)
      modifies pixels
      ensures forall px, py :: InBounds(px, py) ==>
                pixels[py, px] ==
                    if r > 0 && InSomeSpan(CirclePoints(r), px - cx, py - cy) then color else old(pixels[py, px])
      ensures r > 0 ==> forall px, py :: InBounds(px, py) && (px - cx) * (px - cx) + (py - cy) * (py - cy) <= r * r ==>
                pixels[py, px] == color
      ensures r > 0 ==>
                forall px, py :: InBounds(px, py) && (px - cx) * (px - cx) + (py - cy) * (py - cy) > r * r + r - 1 ==>
                pixels[py, px] == old(pixels[py, px])
    {
      if r <= 0 {
        return;
      }
      FillOctants(cx, cy, r, color);
      forall px, py | InBounds(px, py)
        ensures (px - cx) * (px - cx) + (py - cy) * (py - cy) <= r * r ==> InSomeSpan(CirclePoints(r), px - cx, py - cy)
        ensures InSomeSpan(CirclePoints(r), px - cx, py - cy) ==>
                  (px - cx) * (px - cx) + (py - cy) * (py - cy) <= r * r + r - 1
      {
        FilledCircle(r, px - cx, py - cy);
      }
    }

    method FillOctants(cx: int, cy: int, r: nat, color: Color)
      requires r > 0
      modifies pixels
      ensures forall px, py :: InBounds(px, py) ==>
                pixels[py, px] == if InSomeSpan(CirclePoints(r), px - cx, py - cy) then color else old(pixels[py, px])
    {
      hide InSpans, InSomeSpan, Octant;
      var x: int, y: int, d := 0, r, 3 - 2 * r;
      ghost var done: seq<Point> := [];
      NoSpan();
      while x <= y
        invariant 0 <= x && done + Octant(x, y, d) == CirclePoints(r)
        invariant forall px, py :: InBounds(px, py) ==>
                    pixels[py, px] == if InSomeSpan(done, px - cx, py - cy) then color else old(pixels[py, px])
        decreases y - x
      {
        FourSpans(cx, cy, x, y, color);
        OneMoreSpan(done, Point(x, y));
        OctantStep(done, x, y, d, CirclePoints(r));
        done := done + [Point(x, y)];
        if d < 0 {
          d := d + 4 * x + 6;
        } else {
          d := d + 4 * (x - y) + 10;
          y := y - 1;
        }
        x := x + 1;
      }
      OctantDone(x, y, d);
      assert done == CirclePoints(r);
    }

    method EightPoints(cx: int, cy: int, x: int, y: int, color: Color)
      requires 0 <= x <= y
      modifies pixels
      ensures forall px, py :: InBounds(px, py) ==>
                pixels[py, px] == if IsMirror(Point(x, y), px - cx, py - cy) then color else old(pixels[py, px])
    {
      PutPixel(cx + x, cy + y, color);
      PutPixel(cx - x, cy + y, color);
      PutPixel(cx + x, cy - y, color);
      PutPixel(cx - x, cy - y, color);
      PutPixel(cx + y, cy + x, color);
      PutPixel(cx - y, cy + x, color);
      PutPixel(cx + y, cy - x, color);
      PutPixel(cx - y, cy - x, color);
    }

    /** `fb_draw_circle`: exactly the on-screen mirror images of the octant are painted. */
    method DrawCircle(cx: int, cy: int, r: int, color: Color)
      modifies pixels
      ensures r <= 0 ==> forall px, py :: InBounds(px, py) ==>
                pixels[py, px] == if px == cx && py == cy then color else old(pixels[py, px])
      ensures r > 0 ==> forall px, py :: InBounds(px, py) ==>
                pixels[py, px] == if IsSomeMirror(CirclePoints(r), px - cx, py - cy) then color else old(pixels[py, px])
    {
      if r <= 0 {
        PutPixel(cx, cy, color);
      } else {
        DrawOctants(cx, cy, r, color);
      }
    }

    method DrawOctants(cx: int, cy: int, r: nat, color: Color)
      requires r > 0
      modifies pixels
      ensures forall px, py :: InBounds(px, py) ==>
                pixels[py, px] == if IsSomeMirror(CirclePoints(r), px - cx, py - cy) then color else old(pixels[py, px])
    {
      hide IsMirror, IsSomeMirror, Octant;
      var x: int, y: int, d := 0, r, 3 - 2 * r;
      ghost var done: seq<Point> := [];
      NoMirror();
      while x <= y
        invariant 0 <= x && done + Octant(x, y, d) == CirclePoints(r)
        invariant forall px, py :: InBounds(px, py) ==>
                    pixels[py, px] == if IsSomeMirror(done, px - cx, py - cy) then color else old(pixels[py, px])
        decreases y - x
      {
        EightPoints(cx, cy, x, y, color);
        OneMoreMirror(done, Point(x, y));
        OctantStep(done, x, y, d, CirclePoints(r));
        done := done + [Point(x, y)];
        if d < 0 {
          d := d + 4 * x + 6;
        } else {
          d := d + 4 * (x - y) + 10;
          y := y - 1;
        }
        x := x + 1;
      }
      OctantDone(x, y, d);
      assert done == CirclePoints(r);
    }
  }

  lemma LinePointIs(x0: int, y0: int, x1: int, y1: int, k: nat)
    ensures var s := LineAt(Abs(x1 - x0), Abs(y1 - y0), k);
            LinePoint(x0, y0, x1, y1, k) == Point(x0 + Sign(x0, x1) * s.i, y0 + Sign(y0, y1) * s.j)
  {
  }

  lemma VisitedAll(x0: int, y0: int, x1: int, y1: int)
    requires x0 != x1 && y0 != y1
    ensures forall px, py :: Visited(x0, y0, x1, y1, Max(Abs(x1 - x0), Abs(y1 - y0)) + 1, px, py) <==>
              OnSegment(x0, y0, x1, y1, px, py)
  {
  }

  /** Painted before step `k`. */
  ghost predicate Visited(x0: int, y0: int, x1: int, y1: int, k: nat, px: int, py: int)
  {
    exists i: nat :: i < k && LinePoint(x0, y0, x1, y1, i) == Point(px, py)
  }

  lemma VisitNext(x0: int, y0: int, x1: int, y1: int, k: nat)
    ensures forall px, py :: Visited(x0, y0, x1, y1, k + 1, px, py) <==>
              Visited(x0, y0, x1, y1, k, px, py) || LinePoint(x0, y0, x1, y1, k) == Point(px, py)
  {
    forall px, py | Visited(x0, y0, x1, y1, k, px, py)
      ensures Visited(x0, y0, x1, y1, k + 1, px, py)
    {
      var i: nat :| i < k && LinePoint(x0, y0, x1, y1, i) == Point(px, py);
      assert i < k + 1;
    }
  }

  lemma EndpointOffsets(x0: int, y0: int, x1: int, y1: int, s: LineState)
    requires x0 != x1 && y0 != y1
    ensures x0 + Sign(x0, x1) * s.i == x1 <==> s.i == Abs(x1 - x0)
    ensures y0 + Sign(y0, y1) * s.j == y1 <==> s.j == Abs(y1 - y0)
  {
  }

  /** A point whose distance is within its longer coordinate does not reach beyond the radius. */
  lemma WithinRadius(r: nat, x: nat, y: nat)
    requires x <= y && Excess(r, x, y) <= y - 1
    ensures y <= r
  {
    if y > r {
      SquareGap(r, y);
    }
  }

  /**
   A drawn circle consists of exactly the lattice points that are, along their longer coordinate, nearest to the
   circle.
   */
  lemma DrawnCircle(r: nat, dx: int, dy: int)
    requires r >= 1
    ensures var m := Max(Abs(dx), Abs(dy));
            IsSomeMirror(CirclePoints(r), dx, dy) <==> -(m as int) <= dx * dx + dy * dy - r * r <= m - 1
  {
    hide Octant;
    AbsSquare(dx);
    AbsSquare(dy);
    var trace := CirclePoints(r);
    var m := Max(Abs(dx), Abs(dy));
    var p := if Abs(dx) <= Abs(dy) then Point(Abs(dx), Abs(dy)) else Point(Abs(dy), Abs(dx));
    if IsSomeMirror(trace, dx, dy) {
      var k :| 0 <= k < |trace| && IsMirror(trace[k], dx, dy);
      CircleExact(r, trace[k]);
    }
    if -(m as int) <= dx * dx + dy * dy - r * r <= m - 1 {
      WithinRadius(r, p.x, p.y);
      CircleExact(r, p);
      var k :| 0 <= k < |trace| && trace[k] == p;
      assert IsMirror(trace[k], dx, dy);
    }
  }
}
