// What the caller of the tessellator gets, in terms of the polygon as it was given:
// no clamp and no discarding shows (cairo-bentley-ottmann.c, lines 1512-1633).
module PolygonFill {
  import opened Geometry
  import opened Intersect
  import opened Events
  import opened Trapezoids
  import opened Order
  import opened SweepOrder
  import opened Scanline
  import opened DeferredTraps
  import opened Polygon

  // ---- Edges moved by whole numbers ----

  function Moved(e: Edge, dx: int, dy: int): Edge {
    Edge(Point(e.top.x + dx, e.top.y + dy), Point(e.bottom.x + dx, e.bottom.y + dy), e.reversed)
  }

  predicate AreMoved(a: Edges, b: Edges, dx: int, dy: int) {
    |a| == |b| && forall i :: 0 <= i < |a| ==> b[i] == Moved(a[i], dx, dy)
  }

  lemma MovedEdge(e: Edge, dx: int, dy: int, y: real)
    requires Downward(e)
    ensures var m := Moved(e, dx, dy);
      && Downward(m) && Slope(m) == Slope(e)
      && XAt(m, y + dy as real) == XAt(e, y) + dx as real
      && (Spans(m, y + dy as real) <==> Spans(e, y))
  {
  }

  lemma MovedCross(a: Edge, b: Edge, dx: int, dy: int)
    requires Downward(a) && Downward(b) && Slope(a) != Slope(b)
    ensures var m, n := Moved(a, dx, dy), Moved(b, dx, dy);
      && Downward(m) && Downward(n) && Slope(m) != Slope(n)
      && CrossY(m, n) == CrossY(a, b) + dy as real && CrossX(m, n) == CrossX(a, b) + dx as real
  {
    hide Slope, XAt, CrossY, Moved;
    var y := CrossY(a, b);
    MovedEdge(a, dx, dy, y);
    MovedEdge(b, dx, dy, y);
    CrossIsTheMeeting(a, b, y);
    CrossIsTheMeeting(Moved(a, dx, dy), Moved(b, dx, dy), y + dy as real);
  }

  lemma MovedInside(a: Edge, b: Edge, dx: int, dy: int)
    requires Downward(a) && Downward(b)
    ensures Downward(Moved(a, dx, dy)) && Downward(Moved(b, dx, dy))
    ensures CrossInside(Moved(a, dx, dy), Moved(b, dx, dy)) <==> CrossInside(a, b)
  {
    hide Slope, CrossY, CrossX;
    MovedEdge(a, dx, dy, 0.0);
    MovedEdge(b, dx, dy, 0.0);
    if Slope(a) != Slope(b) { MovedCross(a, b, dx, dy); }
  }

  lemma {:induction false} MovedCount(a: Edges, b: Edges, dx: int, dy: int, rule: FillRule, x: real, y: real, n: nat)
    requires ValidEdges(a) && ValidEdges(b) && AreMoved(a, b, dx, dy) && n <= |a|
    ensures Crossed(b, rule, x + dx as real, y + dy as real, n) == Crossed(a, rule, x, y, n)
  {
    hide XAt, Spans;
    if n > 0 {
      MovedCount(a, b, dx, dy, rule, x, y, n - 1);
      MovedEdge(a[n - 1], dx, dy, y);
    }
  }

  lemma MovedFill(a: Edges, b: Edges, dx: int, dy: int, rule: FillRule, x: real, y: real)
    requires ValidEdges(a) && AreMoved(a, b, dx, dy)
    ensures ValidEdges(b) && (Filled(b, rule, x + dx as real, y + dy as real) <==> Filled(a, rule, x, y))
  {
    hide XAt, Spans, Moved, Crossed;
    forall i | 0 <= i < |a|
      ensures Downward(b[i]) && XAt(b[i], y + dy as real) == XAt(a[i], y) + dx as real
      ensures Spans(b[i], y + dy as real) <==> Spans(a[i], y)
    {
      MovedEdge(a[i], dx, dy, y);
    }
    MovedCount(a, b, dx, dy, rule, x, y, |a|);
  }

  // The edges cross at integer points only, nothing happens on the point's row, and no
  // edge passes through it.
  ghost predicate ClearPoint(edges: Edges, x: real, y: real)
    requires ValidEdges(edges)
  {
    IntegerCrossings(edges) && QuietRow(edges, y) && OffEdges(edges, x, y)
  }

  lemma MovedOffEdges(a: Edges, b: Edges, dx: int, dy: int, x: real, y: real)
    requires ValidEdges(a) && ValidEdges(b) && AreMoved(a, b, dx, dy) && OffEdges(a, x, y)
    ensures OffEdges(b, x + dx as real, y + dy as real)
  {
    hide XAt, Spans, Moved;
    forall i | 0 <= i < |b| && Spans(b[i], y + dy as real) ensures XAt(b[i], y + dy as real) != x + dx as real {
      MovedEdge(a[i], dx, dy, y);
    }
  }

  lemma MovedQuietRow(a: Edges, b: Edges, dx: int, dy: int, y: real)
    requires ValidEdges(a) && ValidEdges(b) && AreMoved(a, b, dx, dy) && QuietRow(a, y)
    ensures QuietRow(b, y + dy as real)
  {
    hide CrossY, CrossInside;
    forall i, j | 0 <= i < |b| && 0 <= j < |b| && CrossInside(b[i], b[j])
      ensures Slope(b[i]) != Slope(b[j]) && CrossY(b[i], b[j]) != y + dy as real
    {
      MovedInside(a[i], a[j], dx, dy);
      CrossedSlopes(a[i], a[j]);
      MovedCross(a[i], a[j], dx, dy);
    }
  }

  lemma CrossedSlopes(a: Edge, b: Edge)
    requires Downward(a) && Downward(b) && CrossInside(a, b)
    ensures Slope(a) != Slope(b)
  {
  }

  // A crossing is at an integer point.
  ghost predicate AtInteger(a: Edge, b: Edge)
    requires Downward(a) && Downward(b) && Slope(a) != Slope(b)
  {
    PosOf(Point(CrossX(a, b).Floor, CrossY(a, b).Floor)) == CrossPos(a, b)
  }

  lemma MovedInteger(a: Edge, b: Edge, dx: int, dy: int)
    requires Downward(a) && Downward(b) && CrossInside(a, b) && AtInteger(a, b)
    ensures Downward(Moved(a, dx, dy)) && Downward(Moved(b, dx, dy))
    ensures Slope(Moved(a, dx, dy)) != Slope(Moved(b, dx, dy)) && AtInteger(Moved(a, dx, dy), Moved(b, dx, dy))
  {
    hide CrossY, CrossX, CrossInside, Slope, Moved;
    CrossedSlopes(a, b);
    MovedCross(a, b, dx, dy);
    MovedFloor(CrossX(a, b), dx);
    MovedFloor(CrossY(a, b), dy);
  }

  lemma MovedFloor(v: real, d: int)
    ensures (v + d as real).Floor == v.Floor + d
  {
  }

  lemma MovedCrossings(a: Edges, b: Edges, dx: int, dy: int)
    requires ValidEdges(a) && ValidEdges(b) && AreMoved(a, b, dx, dy) && IntegerCrossings(a)
    ensures IntegerCrossings(b)
  {
    hide CrossY, CrossX, CrossInside, Slope, Moved;
    forall i, j | 0 <= i < |b| && 0 <= j < |b| && CrossInside(b[i], b[j])
      ensures Slope(b[i]) != Slope(b[j]) && AtInteger(b[i], b[j])
    {
      MovedInside(a[i], a[j], dx, dy);
      CrossedSlopes(a[i], a[j]);
      assert AtInteger(a[i], a[j]);
      MovedInteger(a[i], a[j], dx, dy);
    }
  }

  lemma MovedClear(a: Edges, b: Edges, dx: int, dy: int, x: real, y: real)
    requires ValidEdges(a) && ValidEdges(b) && AreMoved(a, b, dx, dy) && ClearPoint(a, x, y)
    ensures ClearPoint(b, x + dx as real, y + dy as real)
  {
    hide IntegerCrossings, QuietRow, OffEdges, AreMoved;
    MovedCrossings(a, b, dx, dy);
    MovedQuietRow(a, b, dx, dy, y);
    MovedOffEdges(a, b, dx, dy, x, y);
  }

  // ---- Some of the edges ----

  ghost predicate Among(some: Edges, all: Edges) {
    forall i :: 0 <= i < |some| ==> some[i] in all
  }

  lemma ClearAmong(some: Edges, all: Edges, x: real, y: real)
    requires ValidEdges(some) && ValidEdges(all) && Among(some, all) && ClearPoint(all, x, y)
    ensures ClearPoint(some, x, y)
  {
    hide CrossY, CrossX, CrossInside, XAt, Spans;
    forall i, j | 0 <= i < |some| && 0 <= j < |some| && CrossInside(some[i], some[j])
      ensures Slope(some[i]) != Slope(some[j]) && AtInteger(some[i], some[j]) && CrossY(some[i], some[j]) != y
    {
      CrossedSlopes(some[i], some[j]);
      var k, l :| 0 <= k < |all| && 0 <= l < |all| && all[k] == some[i] && all[l] == some[j];
    }
  }

  lemma {:induction false} KeptAreAmong(polygon: seq<PolygonEdge>, limits: Limits, min: Point)
    ensures Among(KeptEdges(polygon, limits, min.x, min.y), KeptEdges(polygon, Unlimited, min.x, min.y))
  {
    hide ClampedEdge, Clamp;
    if polygon != [] { KeptAreAmong(polygon[..|polygon| - 1], limits, min); }
  }

  // ---- The polygon's own edges ----

  function OwnEdges(polygon: seq<PolygonEdge>): (r: Edges)
    ensures ValidPolygon(polygon) ==> ValidEdges(r)
  {
    if polygon == [] then [] else
      var e := polygon[|polygon| - 1];
      OwnEdges(polygon[..|polygon| - 1]) + (if e.p1.y == e.p2.y then [] else [Edge(e.p1, e.p2, !e.clockWise)])
  }

  // The box is less than 2^31 wide and high.
  predicate FitsTheGrid(polygon: seq<PolygonEdge>, min: Point) {
    forall i :: 0 <= i < |polygon| ==>
      && PointInRange(Point(polygon[i].p1.x - min.x, polygon[i].p1.y - min.y))
      && PointInRange(Point(polygon[i].p2.x - min.x, polygon[i].p2.y - min.y))
      && polygon[i].p1.y <= polygon[i].p2.y
  }

  lemma {:induction false} OwnAreKept(polygon: seq<PolygonEdge>, min: Point)
    requires FitsTheGrid(polygon, min)
    ensures ValidEdges(OwnEdges(polygon))
    ensures AreMoved(OwnEdges(polygon), KeptEdges(polygon, Unlimited, min.x, min.y), -min.x, -min.y)
  {
    if polygon != [] {
      var n := |polygon| - 1;
      OwnAreKept(polygon[..n], min);
      var e := polygon[n];
      ClampsNothing(e.p1, min);
      ClampsNothing(e.p2, min);
    }
  }

  lemma ClampsNothing(p: Point, min: Point)
    requires PointInRange(Point(p.x - min.x, p.y - min.y))
    ensures ClampedPoint(p, min.x, min.y) == Point(p.x - min.x, p.y - min.y)
  {
  }

  lemma BoxFits(polygon: seq<PolygonEdge>, min: Point, max: Point)
    requires ValidPolygon(polygon) && Extremes(Xs(polygon), min.x, max.x) && Extremes(Ys(polygon), min.y, max.y)
    requires max.x - min.x < TWO31 && max.y - min.y < TWO31
    ensures FitsTheGrid(polygon, min) && Cornered(polygon, min.x, min.y)
  {
    hide Extremes;
    forall i | 0 <= i < |polygon|
      ensures PointInRange(Point(polygon[i].p1.x - min.x, polygon[i].p1.y - min.y))
      ensures PointInRange(Point(polygon[i].p2.x - min.x, polygon[i].p2.y - min.y))
      ensures min.x <= polygon[i].p1.x && min.x <= polygon[i].p2.x && min.y <= polygon[i].p1.y
    {
      InBox(polygon, i, min.x, min.y, max.x, max.y);
    }
  }

  // On quiet rows between the limits, and off its edges, the trapezoids returned for a
  // polygon less than 2^31 wide and high, whose edges cross at integer points only, cover
  // exactly the points the polygon fills, each once.
  lemma PolygonFillsItself(polygon: seq<PolygonEdge>, limits: Limits, rule: FillRule, min: Point, max: Point,
                           run: seq<Full>, last: Full, out: seq<Trapezoid>, x: real, y: real)
    requires ValidPolygon(polygon) && Tessellated(polygon, limits, rule, min, max, run, last, out)
    requires max.x - min.x < TWO31 && max.y - min.y < TWO31
    requires ClearPoint(OwnEdges(polygon), x, y)
    requires limits.Rows? ==> limits.top as real < y < limits.bottom as real
    ensures (exists i :: 0 <= i < |out| && TrapezoidCovers(out[i], x, y)) <==> Filled(OwnEdges(polygon), rule, x, y)
    ensures forall i, j :: 0 <= i < j < |out| ==> !(TrapezoidCovers(out[i], x, y) && TrapezoidCovers(out[j], x, y))
  {
    hide Filled, ClearPoint, TrapezoidCovers, RunFull, Emitted, Extremes, KeptEdges, AreMoved, Among;
    var all, kept := KeptEdges(polygon, Unlimited, min.x, min.y), KeptEdges(polygon, limits, min.x, min.y);
    var u, v := x - min.x as real, y - min.y as real;
    BoxFits(polygon, min, max);
    OwnAreKept(polygon, min);
    MovedFill(OwnEdges(polygon), all, -min.x, -min.y, rule, x, y);
    MovedClear(OwnEdges(polygon), all, -min.x, -min.y, x, y);
    KeptAreAmong(polygon, limits, min);
    ClearAmong(kept, all, u, v);
    ClearParts(kept, u, v);
    PolygonIsFilled(polygon, limits, rule, min, max, run, last, out, u, v);
    if limits.Rows? { LimitsKeepTheFill(polygon, limits, rule, min, u, v); }
  }

  lemma ClearParts(edges: Edges, x: real, y: real)
    requires ValidEdges(edges) && ClearPoint(edges, x, y)
    ensures IntegerCrossings(edges) && QuietRow(edges, y) && OffEdges(edges, x, y)
  {
  }
}
