/** The point sequences the XGS AVR graphics library's line and circle
    rasterisers plot (XGS_AVR_GFX_LIB_V010.c:587-706, 931-1027), as
    functions that step exactly as the C loops do, with what they promise:
    where a line starts and ends, how it steps, how close it stays to the
    true line, and where a circle's points lie. */
module Raster {
  import opened Bytes
  import opened Pixels

  function Abs(a: int): int {
    if a < 0 then -a else a
  }

  /** a moved k steps up (inc) or down (!inc). */
  function Along(a: int, inc: bool, k: int): int {
    if inc then a + k else a - k
  }

  /** The decision variable of GFX_Draw_Line after u major and v minor
      steps, for a line of du major and dv minor steps. */
  function Err(u: int, v: int, du: int, dv: int): int {
    2 * dv * (u + 1) - du - 2 * du * v
  }

  /** The (major, minor) step counts of the pixels the Bresenham loop plots
      from the state u, v, e with n pixels to go: it plots, takes a minor
      step when the error is not negative, and always a major step. */
  function Trace(u: int, v: int, e: int, du: int, dv: int, n: nat): (r: seq<(int, int)>)
    ensures |r| == n
    ensures forall k :: 0 <= k < n ==> r[k].0 == u + k
    decreases n
  {
    if n == 0 then []
    else if e >= 0 then [(u, v)] + Trace(u + 1, v + 1, e - 2 * du + 2 * dv, du, dv, n - 1)
    else [(u, v)] + Trace(u + 1, v, e + 2 * dv, du, dv, n - 1)
  }

  /** One more step of the loop: the rest of the trace after its first
      pixel. */
  lemma TraceNext(u: int, v: int, e: int, du: int, dv: int, n: nat)
    requires n > 0
    ensures Trace(u, v, e, du, dv, n)[0] == (u, v)
    ensures Trace(u, v, e, du, dv, n)[1..]
         == if e >= 0 then Trace(u + 1, v + 1, e - 2 * du + 2 * dv, du, dv, n - 1)
            else Trace(u + 1, v, e + 2 * dv, du, dv, n - 1)
  {
  }

  /** Within half a pixel of the ideal line: the minor count v after u
      major steps differs from u * dv / du by at most one half. */
  predicate Near(u: int, v: int, du: int, dv: int) {
    -du <= 2 * (dv * u - du * v) < du
  }

  lemma ErrNear(u: int, v: int, du: int, dv: int)
    ensures Near(u, v, du, dv) <==> 2 * dv - 2 * du <= Err(u, v, du, dv) < 2 * dv
  {
    assert Err(u, v, du, dv) == 2 * (dv * u - du * v) - du + 2 * dv;
  }

  /** Every pixel the loop plots lies within half a pixel of the ideal
      line, and the minor count never falls behind where it started nor
      gains more than one step per pixel. */
  lemma {:induction false} TraceNear(u: int, v: int, e: int, du: int, dv: int, n: nat, k: int)
    requires 0 <= dv <= du && e == Err(u, v, du, dv) && Near(u, v, du, dv) && 0 <= k < n
    ensures Near(Trace(u, v, e, du, dv, n)[k].0, Trace(u, v, e, du, dv, n)[k].1, du, dv)
    decreases n
  {
    var t := Trace(u, v, e, du, dv, n);
    TraceNext(u, v, e, du, dv, n);
    if k > 0 {
      ErrNear(u, v, du, dv);
      var v' := if e >= 0 then v + 1 else v;
      var e' := if e >= 0 then e - 2 * du + 2 * dv else e + 2 * dv;
      assert Err(u + 1, v', du, dv) == e' by {
        assert 2 * dv * (u + 2) == 2 * dv * (u + 1) + 2 * dv;
        assert 2 * du * (v + 1) == 2 * du * v + 2 * du;
      }
      ErrNear(u + 1, v', du, dv);
      TraceNear(u + 1, v', e', du, dv, n - 1, k - 1);
      assert t[k] == t[1..][k - 1];
    }
  }

  /** The minor count moves by zero or one step from each pixel to the
      next. */
  lemma {:induction false} TraceSteps(u: int, v: int, e: int, du: int, dv: int, n: nat, k: int)
    requires 0 <= k && k + 1 < n
    ensures var t := Trace(u, v, e, du, dv, n);
            t[k + 1].1 == t[k].1 || t[k + 1].1 == t[k].1 + 1
    decreases n
  {
    var t := Trace(u, v, e, du, dv, n);
    var v' := if e >= 0 then v + 1 else v;
    var e' := if e >= 0 then e - 2 * du + 2 * dv else e + 2 * dv;
    var rest := Trace(u + 1, v', e', du, dv, n - 1);
    TraceNext(u, v, e, du, dv, n);
    assert t[1..] == rest;
    assert t[k + 1] == rest[k];
    if k == 0 {
      TraceNext(u + 1, v', e', du, dv, n - 1);
    } else {
      TraceSteps(u + 1, v', e', du, dv, n - 1, k - 1);
      assert t[k] == rest[k - 1];
    }
  }

  /** A whole number d with 2 * du * d within [-du, du) is zero. */
  lemma HalfOfZero(d: int, du: int)
    requires 0 < du && -du <= 2 * du * d < du
    ensures d == 0
  {
    if d > 0 {
      MulLe(1, d, du);
    } else if d < 0 {
      MulLe(d, -1, du);
    }
  }

  /** Half a pixel from the ideal line at the last major step is the last
      minor step itself. */
  lemma EndNear(v: int, du: int, dv: int)
    requires 0 < du && Near(du, v, du, dv)
    ensures v == dv
  {
    assert 2 * (dv * du - du * v) == 2 * du * (dv - v);
    HalfOfZero(dv - v, du);
  }

  /** Within half a pixel, v lies between 0 and dv whenever u does between
      0 and du. */
  lemma NearInBox(u: int, v: int, du: int, dv: int)
    requires 0 < du && 0 <= dv && 0 <= u <= du && Near(u, v, du, dv)
    ensures 0 <= v <= dv
  {
    MulLe(0, u, dv);
    MulLe(u, du, dv);
    if v < 0 {
      MulLe(v, -1, du);
    } else if v > dv {
      MulLe(dv + 1, v, du);
    }
  }

  /** The line's steps: du major and dv minor steps, the major axis x
      exactly when |dx| > |dy|, as GFX_Draw_Line chooses. */
  datatype Plan = Plan(xMajor: bool, du: int, dv: int, xInc: bool, yInc: bool)

  function PlanOf(a: Point, b: Point): (p: Plan)
    ensures 0 <= p.dv <= p.du
    ensures p.xMajor <==> Abs(b.x - a.x) > Abs(b.y - a.y)
  {
    var dx := Abs(b.x - a.x);
    var dy := Abs(b.y - a.y);
    var xInc := b.x - a.x >= 0;
    var yInc := b.y - a.y >= 0;
    if dx > dy then Plan(true, dx, dy, xInc, yInc) else Plan(false, dy, dx, xInc, yInc)
  }

  /** The last step of the plan reaches b. */
  lemma PlanReaches(a: Point, b: Point)
    ensures b == Place(a, PlanOf(a, b), (PlanOf(a, b).du, PlanOf(a, b).dv))
  {
  }

  /** The pixel of the trace step (u, v). */
  function Place(a: Point, p: Plan, s: (int, int)): Point {
    if p.xMajor then Point(Along(a.x, p.xInc, s.0), Along(a.y, p.yInc, s.1))
    else Point(Along(a.x, p.xInc, s.1), Along(a.y, p.yInc, s.0))
  }

  /** The trace of the whole line, from the loop's first state. */
  function LineTrace(p: Plan): (t: seq<(int, int)>)
    requires 0 <= p.du
    ensures |t| == p.du + 1
  {
    Trace(0, 0, 2 * p.dv - p.du, p.du, p.dv, p.du + 1)
  }

  /** The pixels of the trace of plan p, placed from a. */
  function LinePath(a: Point, p: Plan): (pts: seq<Point>)
    requires 0 <= p.du
    ensures |pts| == p.du + 1
    ensures forall k :: 0 <= k < |pts| ==> pts[k] == Place(a, p, LineTrace(p)[k])
  {
    var t := LineTrace(p);
    seq(|t|, k requires 0 <= k < |t| => Place(a, p, t[k]))
  }

  /** The pixels GFX_Draw_Line(a.x, a.y, b.x, b.y) plots, in order. */
  function LinePoints(a: Point, b: Point): (pts: seq<Point>)
    ensures |pts| == PlanOf(a, b).du + 1
    ensures forall k :: 0 <= k < |pts| ==> pts[k] == Place(a, PlanOf(a, b), LineTrace(PlanOf(a, b))[k])
  {
    LinePath(a, PlanOf(a, b))
  }

  /** Pixel k of the line is major step k, with its minor step between 0
      and the line's minor steps and, unless the line is a single pixel,
      within half a pixel of the ideal line. */
  lemma LineNear(a: Point, b: Point, k: int)
    requires 0 <= k < |LinePoints(a, b)|
    ensures var p := PlanOf(a, b);
            var s := LineTrace(p)[k];
            s.0 == k && (p.du > 0 ==> Near(k, s.1, p.du, p.dv)) && 0 <= s.1 <= p.dv
  {
    var p := PlanOf(a, b);
    var e := 2 * p.dv - p.du;
    if p.du > 0 {
      assert Err(0, 0, p.du, p.dv) == e;
      TraceNear(0, 0, e, p.du, p.dv, p.du + 1, k);
      NearInBox(k, LineTrace(p)[k].1, p.du, p.dv);
    } else {
      TraceNext(0, 0, e, p.du, p.dv, p.du + 1);
    }
  }

  /** The line has max(|dx|, |dy|) + 1 pixels, starts at a and ends at b. */
  lemma LineEnds(a: Point, b: Point)
    ensures |LinePoints(a, b)| == (if Abs(b.x - a.x) > Abs(b.y - a.y) then Abs(b.x - a.x) else Abs(b.y - a.y)) + 1
    ensures LinePoints(a, b)[0] == a
    ensures LinePoints(a, b)[|LinePoints(a, b)| - 1] == b
  {
    var p := PlanOf(a, b);
    PlanReaches(a, b);
    LineNear(a, b, 0);
    LineNear(a, b, p.du);
    if p.du > 0 {
      EndNear(LineTrace(p)[p.du].1, p.du, p.dv);
    }
  }

  /** Consecutive pixels of the line: the major coordinate moves one step
      towards b, the minor one by zero or one step towards b. */
  lemma LineSteps(a: Point, b: Point, k: int)
    requires 0 <= k && k + 1 < |LinePoints(a, b)|
    ensures var p := PlanOf(a, b);
            var q, q' := LinePoints(a, b)[k], LinePoints(a, b)[k + 1];
            if p.xMajor then q'.x == Along(q.x, p.xInc, 1) && (q'.y == q.y || q'.y == Along(q.y, p.yInc, 1))
            else q'.y == Along(q.y, p.yInc, 1) && (q'.x == q.x || q'.x == Along(q.x, p.xInc, 1))
  {
    var p := PlanOf(a, b);
    TraceSteps(0, 0, 2 * p.dv - p.du, p.du, p.dv, p.du + 1, k);
  }

  /** Stepping k of d steps from a towards the end point stays between
      them. */
  lemma AlongBetween(a: int, inc: bool, k: int, d: int)
    requires 0 <= k <= d
    ensures var q, z := Along(a, inc, k), Along(a, inc, d);
            a <= q <= z || z <= q <= a
  {
  }

  /** Every pixel of the line lies in the box spanned by its end points. */
  lemma LineInBox(a: Point, b: Point, k: int)
    requires 0 <= k < |LinePoints(a, b)|
    ensures var q := LinePoints(a, b)[k];
            (a.x <= q.x <= b.x || b.x <= q.x <= a.x) && (a.y <= q.y <= b.y || b.y <= q.y <= a.y)
  {
    var p := PlanOf(a, b);
    PlanReaches(a, b);
    LineNear(a, b, k);
    var s := LineTrace(p)[k];
    if p.xMajor {
      AlongBetween(a.x, p.xInc, s.0, p.du);
      AlongBetween(a.y, p.yInc, s.1, p.dv);
    } else {
      AlongBetween(a.x, p.xInc, s.1, p.dv);
      AlongBetween(a.y, p.yInc, s.0, p.du);
    }
  }

  /** The minor count and error after one pass of the loop body. */
  function Bump(v: int, e: int, du: int, dv: int): (int, int) {
    if e >= 0 then (v + 1, e - 2 * du + 2 * dv) else (v, e + 2 * dv)
  }

  /** The minor count and error after k passes of the loop body from
      (v, e). */
  function Walk(v: int, e: int, du: int, dv: int, k: nat): (int, int) {
    if k == 0 then (v, e) else var w := Walk(v, e, du, dv, k - 1); Bump(w.0, w.1, du, dv)
  }

  lemma {:induction false} WalkShift(v: int, e: int, du: int, dv: int, k: nat)
    ensures Walk(v, e, du, dv, k + 1) == Walk(Bump(v, e, du, dv).0, Bump(v, e, du, dv).1, du, dv, k)
  {
    if k > 0 {
      WalkShift(v, e, du, dv, k - 1);
    }
  }

  /** Step k of the trace is major step k with the minor count of k passes
      of the loop body. */
  lemma {:induction false} TraceWalk(u: int, v: int, e: int, du: int, dv: int, n: nat, k: nat)
    requires k < n
    ensures Trace(u, v, e, du, dv, n)[k] == (u + k, Walk(v, e, du, dv, k).0)
    decreases n
  {
    TraceNext(u, v, e, du, dv, n);
    if k > 0 {
      var b := Bump(v, e, du, dv);
      TraceWalk(u + 1, b.0, b.1, du, dv, n - 1, k - 1);
      WalkShift(v, e, du, dv, k - 1);
      assert Trace(u, v, e, du, dv, n)[k] == Trace(u, v, e, du, dv, n)[1..][k - 1];
    }
  }

  /** Pixel k of the path of plan p: the place of major step k and the
      minor count after k passes of the loop. */
  lemma LinePathAt(a: Point, p: Plan, k: nat)
    requires 0 <= p.du && k <= p.du
    ensures LinePath(a, p)[k] == Place(a, p, (k, Walk(0, 2 * p.dv - p.du, p.du, p.dv, k).0))
  {
    TraceWalk(0, 0, 2 * p.dv - p.du, p.du, p.dv, p.du + 1, k);
  }

  /** The pixel after (u, v): one step along the major axis, and one along
      the minor axis when the minor count steps too. */
  lemma PlaceNext(a: Point, p: Plan, u: int, v: int, bump: bool, xInc: int, yInc: int)
    requires xInc == (if p.xInc then 1 else -1) && yInc == (if p.yInc then 1 else -1)
    ensures var q, q' := Place(a, p, (u, v)), Place(a, p, (u + 1, if bump then v + 1 else v));
            if p.xMajor then q' == Point(q.x + xInc, if bump then q.y + yInc else q.y)
            else q' == Point(if bump then q.x + xInc else q.x, q.y + yInc)
  {
  }

  /** One pass of a GFX_Draw_Line loop body, from the state after index
      passes: it plots pixel index of the path, its error and minor count
      become those of index + 1 passes, and the next pixel is one major step
      on, plus one minor step when the error was not negative. */
  lemma LoopStep(a: Point, p: Plan, index: nat, v: int, e: int, xInc: int, yInc: int)
    requires 0 <= p.dv <= p.du && index <= p.du
    requires v == Walk(0, 2 * p.dv - p.du, p.du, p.dv, index).0 && e == Walk(0, 2 * p.dv - p.du, p.du, p.dv, index).1
    requires xInc == (if p.xInc then 1 else -1) && yInc == (if p.yInc then 1 else -1)
    ensures LinePath(a, p)[index] == Place(a, p, (index, v))
    ensures Walk(0, 2 * p.dv - p.du, p.du, p.dv, index + 1).0 == if e >= 0 then v + 1 else v
    ensures Walk(0, 2 * p.dv - p.du, p.du, p.dv, index + 1).1 == (if e >= 0 then e - 2 * p.du else e) + 2 * p.dv
    ensures var q := Place(a, p, (index, v));
            var q' := Place(a, p, (index + 1, if e >= 0 then v + 1 else v));
            if p.xMajor then q' == Point(q.x + xInc, if e >= 0 then q.y + yInc else q.y)
            else q' == Point(if e >= 0 then q.x + xInc else q.x, q.y + yInc)
  {
    LinePathAt(a, p, index);
    PlaceNext(a, p, index, v, e >= 0, xInc, yInc);
  }

  /** A line between two pixels of the screen stays on the screen. */
  lemma LineOnScreen(a: Point, b: Point, f: Frame)
    requires f.OnScreen(a) && f.OnScreen(b)
    ensures forall k :: 0 <= k < |LinePoints(a, b)| ==> f.OnScreen(LinePoints(a, b)[k])
  {
    forall k | 0 <= k < |LinePoints(a, b)|
      ensures f.OnScreen(LinePoints(a, b)[k])
    {
      LineInBox(a, b, k);
    }
  }

  /** The buffer after plotting the line from a to b. */
  function PlotLine(buf: seq<uint8>, f: Frame, a: Point, b: Point, c: uint8): (r: seq<uint8>)
    requires f.Valid() && |buf| == f.Size() && c < 4 && f.OnScreen(a) && f.OnScreen(b)
    ensures |r| == |buf|
  {
    LineOnScreen(a, b, f);
    PlotAll(buf, f, LinePoints(a, b), c)
  }

  /** The four mirror images of (c.x + x, c.y + y) in the two axes
      through c, in the order GFX_Draw_Circle plots them. */
  function Quad(c: Point, x: int, y: int): (r: seq<Point>)
    ensures |r| == 4
  {
    [Point(c.x + x, c.y + y), Point(c.x - x, c.y + y), Point(c.x + x, c.y - y), Point(c.x - x, c.y - y)]
  }

  /** Every pixel within d columns and d rows of c is on the screen f. */
  predicate Reaches(f: Frame, c: Point, d: int) {
    0 <= d && 0 <= c.x - d && c.x + d < f.width && 0 <= c.y - d && c.y + d < f.height
  }

  lemma QuadOnScreen(f: Frame, c: Point, x: int, y: int)
    requires Reaches(f, c, x) && Reaches(f, c, y)
    ensures forall k :: 0 <= k < 4 ==> f.OnScreen(Quad(c, x, y)[k])
  {
  }

  /** The eight pixels one step of GFX_Draw_Circle plots, one per octant:
      the four images of (x, y), then those of (y, x). */
  function Octants(c: Point, x: int, y: int): (r: seq<Point>)
    ensures |r| == 8
  {
    Quad(c, x, y) + Quad(c, y, x)
  }

  /** The variables of the midpoint loop: x, y, f, ddF_x and ddF_y. */
  datatype Mid = Mid(x: int, y: int, f: int, ddx: int, ddy: int)

  /** The loop's state before its first step, for radius r. */
  function Start(r: int): (s: Mid)
    ensures s.x == 0 && s.y == r
  {
    Mid(0, r, 1 - r, 1, -2 * r)
  }

  /** One pass of the loop body before it plots: y steps down when f is not
      negative, then x steps up. */
  function Step(s: Mid): (t: Mid)
    ensures t.x == s.x + 1 && (t.y == s.y || t.y == s.y - 1)
  {
    var s' := if s.f >= 0 then s.(y := s.y - 1, ddy := s.ddy + 2, f := s.f + s.ddy + 2) else s;
    s'.(x := s'.x + 1, ddx := s'.ddx + 2, f := s'.f + s'.ddx + 2)
  }

  /** The loop's variables track its position on the circle of radius r:
      f is (x + 1)^2 + (y - 1/2)^2 - r^2 - 1/4, the midpoint test for the
      next column, and ddF_x, ddF_y are its differences. */
  predicate Tracks(s: Mid, r: int) {
    s.f == (s.x + 1) * (s.x + 1) + s.y * s.y - s.y - r * r && s.ddx == 2 * s.x + 1 && s.ddy == -2 * s.y
  }

  lemma StartTracks(r: int)
    ensures Tracks(Start(r), r)
  {
  }

  /** The loop body keeps the variables tracking the position. */
  lemma StepTracks(s: Mid, r: int)
    requires Tracks(s, r)
    ensures Tracks(Step(s), r)
  {
    var x, y := s.x, s.y;
    assert (x + 2) * (x + 2) == (x + 1) * (x + 1) + 2 * x + 3;
    assert (y - 1) * (y - 1) == y * y - 2 * y + 1;
  }

  /** The midpoint rule: the loop steps y down exactly when the point
      halfway between (x + 1, y) and (x + 1, y - 1) is not inside the
      circle, 4 (x + 1)^2 + (2 y - 1)^2 >= 4 r^2 + 1. */
  lemma MidpointChoice(s: Mid, r: int)
    requires Tracks(s, r)
    ensures Step(s).y == s.y - 1 <==> 4 * (s.x + 1) * (s.x + 1) + (2 * s.y - 1) * (2 * s.y - 1) >= 4 * r * r + 1
  {
    var x, y := s.x, s.y;
    assert (2 * y - 1) * (2 * y - 1) == 4 * (y * y - y) + 1;
    assert 4 * (x + 1) * (x + 1) == 4 * ((x + 1) * (x + 1));
  }

  /** The pixels the loop plots from state s on: while x < y it steps and
      plots the eight octant pixels of the new x and y. */
  function Arc(c: Point, s: Mid): (r: seq<Point>)
    decreases s.y - s.x
  {
    if s.x >= s.y then [] else Octants(c, Step(s).x, Step(s).y) + Arc(c, Step(s))
  }

  /** The pixels GFX_Draw_Circle(c.x, c.y, r) plots, in order: the four
      ends of the axes, then the octants of every step of the loop. */
  function CirclePoints(c: Point, r: int): (pts: seq<Point>)
    ensures |pts| >= 4
  {
    Ends(c, r) + Arc(c, Start(r))
  }

  /** The four ends of the axes, plotted first. */
  function Ends(c: Point, r: int): (e: seq<Point>)
    ensures |e| == 4
  {
    [Point(c.x, c.y + r), Point(c.x, c.y - r), Point(c.x + r, c.y), Point(c.x - r, c.y)]
  }

  /** One pass of the circle loop past the pixels already plotted: the
      next eight are the octants of the stepped state, and the rest is the
      arc from it. */
  lemma ArcNext(c: Point, s: Mid, done: seq<Point>, pts: seq<Point>)
    requires pts == done + Arc(c, s) && s.x < s.y
    ensures pts == (done + Octants(c, Step(s).x, Step(s).y)) + Arc(c, Step(s))
  {
    var o := Octants(c, Step(s).x, Step(s).y);
    assert Arc(c, s) == o + Arc(c, Step(s));
  }

  /** p lies in the square of half-side r around c. */
  predicate InSquare(c: Point, r: int, p: Point) {
    c.x - r <= p.x <= c.x + r && c.y - r <= p.y <= c.y + r
  }

  /** While 0 <= x and y <= r, every pixel the loop plots lies in the
      circle's square. */
  lemma {:induction false} ArcInSquare(c: Point, r: int, s: Mid)
    requires 0 <= s.x && s.y <= r
    ensures forall k :: 0 <= k < |Arc(c, s)| ==> InSquare(c, r, Arc(c, s)[k])
    decreases s.y - s.x
  {
    if s.x < s.y {
      var t := Step(s);
      ArcInSquare(c, r, t);
      var head, tail := Octants(c, t.x, t.y), Arc(c, t);
      assert Arc(c, s) == head + tail;
      forall k | 0 <= k < |head + tail|
        ensures InSquare(c, r, (head + tail)[k])
      {
        if k >= 8 {
          assert (head + tail)[k] == tail[k - 8];
        }
      }
    }
  }

  /** Every pixel of a circle of radius r lies in the square of half-side
      |r| around its centre (a negative radius plots only the four axis
      ends). */
  lemma CircleInSquare(c: Point, r: int)
    ensures forall k :: 0 <= k < |CirclePoints(c, r)| ==> InSquare(c, Abs(r), CirclePoints(c, r)[k])
  {
    var ends, arc := Ends(c, r), Arc(c, Start(r));
    if r >= 0 {
      ArcInSquare(c, r, Start(r));
    } else {
      assert arc == [];
    }
    forall k | 0 <= k < |ends + arc|
      ensures InSquare(c, Abs(r), (ends + arc)[k])
    {
      if k >= 4 {
        assert (ends + arc)[k] == arc[k - 4];
      }
    }
  }

  /** The trivial rejection of GFX_Draw_Circle_Clipped: the square around
      the circle lies wholly off one side of the screen. */
  predicate Rejects(f: Frame, c: Point, r: int) {
    c.x + r < 0 || c.x - r >= f.width || c.y + r < 0 || c.y - r >= f.height
  }

  /** For a radius of zero or more, a rejected circle has no pixel inside
      any clipping rectangle on the screen, so skipping it loses nothing. */
  lemma CircleRejectInvisible(f: Frame, c: Point, r: int, cl: Clip)
    requires 0 <= r && Rejects(f, c, r) && cl.Inside(f)
    ensures Visible(CirclePoints(c, r), cl) == []
  {
    var pts := CirclePoints(c, r);
    CircleInSquare(c, r);
    assert forall k :: 0 <= k < |pts| ==> !cl.Contains(pts[k]);
    NoneVisible(pts, cl);
  }

  /** The mirror images of p about the vertical and horizontal lines through
      c and about the diagonal through c; together they make the eight
      symmetries of the square. */
  function FlipX(c: Point, p: Point): Point {
    Point(2 * c.x - p.x, p.y)
  }

  function FlipY(c: Point, p: Point): Point {
    Point(p.x, 2 * c.y - p.y)
  }

  function Transpose(c: Point, p: Point): Point {
    Point(c.x + (p.y - c.y), c.y + (p.x - c.x))
  }

  /** The three mirror images of p around c are in pts. */
  predicate Mirrored(c: Point, p: Point, pts: seq<Point>) {
    FlipX(c, p) in pts && FlipY(c, p) in pts && Transpose(c, p) in pts
  }

  lemma MirroredJoin(c: Point, p: Point, a: seq<Point>, b: seq<Point>)
    requires Mirrored(c, p, a) || Mirrored(c, p, b)
    ensures Mirrored(c, p, a + b)
  {
  }

  /** The eight octant pixels of a step map onto each other. */
  lemma OctantsMirrored(c: Point, x: int, y: int, i: int)
    requires 0 <= i < 8
    ensures Mirrored(c, Octants(c, x, y)[i], Octants(c, x, y))
  {
    var o := Octants(c, x, y);
    var fx := [1, 0, 3, 2, 5, 4, 7, 6];
    var fy := [2, 3, 0, 1, 6, 7, 4, 5];
    var tr := [4, 6, 5, 7, 0, 2, 1, 3];
    assert FlipX(c, o[i]) == o[fx[i]];
    assert FlipY(c, o[i]) == o[fy[i]];
    assert Transpose(c, o[i]) == o[tr[i]];
  }

  lemma {:induction false} ArcMirrored(c: Point, s: Mid, i: int)
    requires 0 <= i < |Arc(c, s)|
    ensures Mirrored(c, Arc(c, s)[i], Arc(c, s))
    decreases s.y - s.x
  {
    var t := Step(s);
    var head, tail := Octants(c, t.x, t.y), Arc(c, t);
    assert Arc(c, s) == head + tail;
    if i < 8 {
      OctantsMirrored(c, t.x, t.y, i);
      assert (head + tail)[i] == head[i];
    } else {
      ArcMirrored(c, t, i - 8);
      assert (head + tail)[i] == tail[i - 8];
    }
    MirroredJoin(c, (head + tail)[i], head, tail);
  }

  /** The circle is symmetric in its centre's two axes and diagonal: every
      pixel plotted in one octant is plotted in all eight. */
  lemma CircleMirrored(c: Point, r: int, i: int)
    requires 0 <= i < |CirclePoints(c, r)|
    ensures Mirrored(c, CirclePoints(c, r)[i], CirclePoints(c, r))
  {
    var ends, arc := Ends(c, r), Arc(c, Start(r));
    if i < 4 {
      var fx := [0, 1, 3, 2];
      var fy := [1, 0, 2, 3];
      var tr := [2, 3, 0, 1];
      assert FlipX(c, ends[i]) == ends[fx[i]];
      assert FlipY(c, ends[i]) == ends[fy[i]];
      assert Transpose(c, ends[i]) == ends[tr[i]];
      assert (ends + arc)[i] == ends[i];
    } else {
      ArcMirrored(c, Start(r), i - 4);
      assert (ends + arc)[i] == arc[i - 4];
    }
    MirroredJoin(c, (ends + arc)[i], ends, arc);
  }
}
