// From a polygon to the tessellator's edges: the bounding box, the offset and the
// clamp, in wrap-around 32-bit arithmetic (cairo-bentley-ottmann.c, lines 1502-1636).
module Polygon {
  import opened Arith
  import opened Geometry
  import opened Intersect
  import opened Events
  import opened Sweep
  import opened Trapezoids
  import opened SweepOrder
  import opened Scanline
  import opened Machine
  import opened ActiveList
  import opened DeferredTraps
  import opened Tessellator

  // cairo_polygon_edge_t
  datatype PolygonEdge = PolygonEdge(p1: Point, p2: Point, clockWise: bool)

  // What _cairo_traps_get_limit reports: no limits, or the rows of a box.
  datatype Limits = Unlimited | Rows(top: int, bottom: int)

  predicate Int32(v: int) {
    -TWO31 <= v < TWO31
  }

  predicate PointIs32(p: Point) {
    Int32(p.x) && Int32(p.y)
  }

  // What the source asserts of its input: no edge is upside down.
  predicate ValidPolygon(polygon: seq<PolygonEdge>) {
    forall i :: 0 <= i < |polygon| ==>
      PointIs32(polygon[i].p1) && PointIs32(polygon[i].p2) && polygon[i].p1.y <= polygon[i].p2.y
  }

  // ---- The bounding box ----

  function Xs(polygon: seq<PolygonEdge>): seq<int> {
    if polygon == [] then [] else
      Xs(polygon[..|polygon| - 1]) + [polygon[|polygon| - 1].p1.x, polygon[|polygon| - 1].p2.x]
  }

  function Ys(polygon: seq<PolygonEdge>): seq<int> {
    if polygon == [] then [] else
      Ys(polygon[..|polygon| - 1]) + [polygon[|polygon| - 1].p1.y, polygon[|polygon| - 1].p2.y]
  }

  ghost predicate Extremes(s: seq<int>, lo: int, hi: int) {
    lo in s && hi in s && forall v :: v in s ==> lo <= v <= hi
  }

  lemma {:induction false} CoordinatesOf(polygon: seq<PolygonEdge>, i: nat)
    requires i < |polygon|
    ensures polygon[i].p1.x in Xs(polygon) && polygon[i].p2.x in Xs(polygon)
    ensures polygon[i].p1.y in Ys(polygon) && polygon[i].p2.y in Ys(polygon)
    decreases |polygon|
  {
    if i < |polygon| - 1 {
      CoordinatesOf(polygon[..|polygon| - 1], i);
    }
  }

  // update_minmax
  method UpdateMinMax(min: int, max: int, v: int) returns (min': int, max': int)
    ensures min' == (if v < min then v else min) && max' == (if v > max then v else max)
  {
    min', max' := min, max;
    if v < min { min' := v; }
    if v > max { max' := v; }
  }

  // The least and greatest of s and v, given those of s; the initial extremes are
  // beyond every 32-bit coordinate.
  ghost predicate Tracked(s: seq<int>, lo: int, hi: int) {
    if s == [] then lo == 0x7FFF_FFFF && hi == -0x8000_0000 else Extremes(s, lo, hi)
  }

  lemma TrackTwo(s: seq<int>, lo: int, hi: int, v: int, w: int)
    requires Tracked(s, lo, hi) && Int32(v) && Int32(w)
    ensures var lo', hi' := Min(Min(lo, v), w), -Min(Min(-hi, -v), -w);
      Tracked(s + [v, w], lo', hi')
  {
    var r := s + [v, w];
    assert r[|s|] == v && r[|s| + 1] == w;
    assert forall x :: x in r <==> x in s || x == v || x == w;
  }

  method BoundingBox(polygon: seq<PolygonEdge>) returns (xmin: int, ymin: int, xmax: int, ymax: int)
    requires polygon != [] && ValidPolygon(polygon)
    ensures Extremes(Xs(polygon), xmin, xmax) && Extremes(Ys(polygon), ymin, ymax)
  {
    hide Extremes;
    xmin, ymin, xmax, ymax := 0x7FFF_FFFF, 0x7FFF_FFFF, -0x8000_0000, -0x8000_0000;
    for i := 0 to |polygon|
      invariant Tracked(Xs(polygon[..i]), xmin, xmax) && Tracked(Ys(polygon[..i]), ymin, ymax)
    {
      var e := polygon[i];
      assert polygon[..i + 1][..i] == polygon[..i];
      TrackTwo(Xs(polygon[..i]), xmin, xmax, e.p1.x, e.p2.x);
      TrackTwo(Ys(polygon[..i]), ymin, ymax, e.p1.y, e.p2.y);
      xmin, xmax := UpdateMinMax(xmin, xmax, e.p1.x);
      ymin, ymax := UpdateMinMax(ymin, ymax, e.p1.y);
      xmin, xmax := UpdateMinMax(xmin, xmax, e.p2.x);
      ymin, ymax := UpdateMinMax(ymin, ymax, e.p2.y);
    }
    assert polygon[..|polygon|] == polygon;
  }

  // ---- Offset and clamp ----

  // The far side of the box, clamped when its extent wraps around.
  function ClampedFar(min: int, max: int): int {
    if Sub32(max, min) < 0 then Wrap(min + 0x7FFF_FFFF, TWO31) else max
  }

  // The coordinate the code computes from v, for a box from min to (clamped) far.
  function Offset(v: int, min: int, far: int): int {
    if Sub32(v, min) < 0 then Sub32(far, min) else Sub32(v, min)
  }

  // What it means: the distance from the near side, at most 2^31 - 1.
  function Clamp(v: int, min: int): int {
    Min(v - min, 0x7FFF_FFFF)
  }

  lemma WrapsOnce(v: int)
    requires TWO31 <= v < 2 * TWO31
    ensures Wrap(v, TWO31) == v - 2 * TWO31
  {
  }

  // Wrap-around included, every coordinate of the box lands on its clamped distance.
  lemma OffsetIsClamp(v: int, min: int, max: int)
    requires Int32(min) && Int32(max) && min <= v <= max
    ensures Offset(v, min, ClampedFar(min, max)) == Clamp(v, min)
  {
    if max - min < TWO31 {
      WrapFits(max - min, TWO31);
    } else {
      WrapsOnce(max - min);
      WrapFits(min + 0x7FFF_FFFF, TWO31);
      WrapFits(0x7FFF_FFFF, TWO31);
    }
    if v - min < TWO31 { WrapFits(v - min, TWO31); } else { WrapsOnce(v - min); }
  }

  // The clamp lands in [0, 2^31 - 1], never turns two coordinates around, and merges
  // two only when both are at least 2^31 - 1 away from the near side.
  lemma ClampKeepsOrder(v: int, w: int, min: int)
    requires min <= v <= w
    ensures 0 <= Clamp(v, min) <= Clamp(w, min) < TWO31
    ensures Clamp(v, min) == Clamp(w, min) <==> v == w || v - min >= 0x7FFF_FFFF
    ensures Clamp(v, min) == v - min <==> v - min <= 0x7FFF_FFFF
  {
  }

  // ---- The edges handed on ----

  function ClampedPoint(p: Point, xmin: int, ymin: int): Point {
    Point(Clamp(p.x, xmin), Clamp(p.y, ymin))
  }

  function ClampedEdge(e: PolygonEdge, xmin: int, ymin: int): Edge {
    Edge(ClampedPoint(e.p1, xmin, ymin), ClampedPoint(e.p2, xmin, ymin), !e.clockWise)
  }

  predicate OutsideLimits(e: PolygonEdge, limits: Limits) {
    limits.Rows? && (e.p2.y <= limits.top || e.p1.y >= limits.bottom)
  }

  predicate Discarded(e: PolygonEdge, limits: Limits, ymin: int) {
    OutsideLimits(e, limits) || Clamp(e.p1.y, ymin) == Clamp(e.p2.y, ymin)
  }

  function KeptEdges(polygon: seq<PolygonEdge>, limits: Limits, xmin: int, ymin: int): Edges {
    if polygon == [] then [] else
      var e := polygon[|polygon| - 1];
      KeptEdges(polygon[..|polygon| - 1], limits, xmin, ymin)
      + (if Discarded(e, limits, ymin) then [] else [ClampedEdge(e, xmin, ymin)])
  }

  predicate Cornered(polygon: seq<PolygonEdge>, xmin: int, ymin: int) {
    forall i :: 0 <= i < |polygon| ==>
      && xmin <= polygon[i].p1.x && xmin <= polygon[i].p2.x
      && ymin <= polygon[i].p1.y <= polygon[i].p2.y
  }

  // What the tessellator needs of its edges holds of every polygon's.
  lemma {:induction false} KeptEdgesFit(polygon: seq<PolygonEdge>, limits: Limits, xmin: int, ymin: int)
    requires Cornered(polygon, xmin, ymin)
    ensures ValidEdges(KeptEdges(polygon, limits, xmin, ymin)) && AllInRange(KeptEdges(polygon, limits, xmin, ymin))
  {
    if polygon != [] {
      var e := polygon[|polygon| - 1];
      KeptEdgesFit(polygon[..|polygon| - 1], limits, xmin, ymin);
      ClampKeepsOrder(e.p1.y, e.p2.y, ymin);
    }
  }

  lemma InBox(polygon: seq<PolygonEdge>, i: nat, xmin: int, ymin: int, xmax: int, ymax: int)
    requires i < |polygon| && Extremes(Xs(polygon), xmin, xmax) && Extremes(Ys(polygon), ymin, ymax)
    ensures xmin <= polygon[i].p1.x <= xmax && xmin <= polygon[i].p2.x <= xmax
    ensures ymin <= polygon[i].p1.y <= ymax && ymin <= polygon[i].p2.y <= ymax
  {
    CoordinatesOf(polygon, i);
  }

  lemma BoxCorner(polygon: seq<PolygonEdge>, xmin: int, ymin: int, xmax: int, ymax: int)
    requires ValidPolygon(polygon) && Extremes(Xs(polygon), xmin, xmax) && Extremes(Ys(polygon), ymin, ymax)
    ensures Cornered(polygon, xmin, ymin)
  {
    forall i | 0 <= i < |polygon|
      ensures xmin <= polygon[i].p1.x && xmin <= polygon[i].p2.x && ymin <= polygon[i].p1.y
    {
      InBox(polygon, i, xmin, ymin, xmax, ymax);
    }
  }

  // One edge of the polygon, offset and clamped; null when discarded.
  method MakeEdge(e: PolygonEdge, id: nat, limits: Limits, xmin: int, ymin: int, far: Point, ghost max: Point)
    returns (edge: BoEdge?)
    requires Int32(xmin) && Int32(ymin) && PointIs32(max)
    requires xmin <= e.p1.x <= max.x && xmin <= e.p2.x <= max.x && ymin <= e.p1.y <= e.p2.y <= max.y
    requires far == Point(ClampedFar(xmin, max.x), ClampedFar(ymin, max.y))
    ensures edge == null <==> Discarded(e, limits, ymin)
    ensures edge != null ==> fresh(edge) && edge.id == id && edge.shape == ClampedEdge(e, xmin, ymin)
    ensures edge != null ==> edge.deferred == Closed
  {
    if limits.Rows? && (e.p2.y <= limits.top || e.p1.y >= limits.bottom) { return null; }
    hide Offset, ClampedFar;
    OffsetIsClamp(e.p1.x, xmin, max.x);
    OffsetIsClamp(e.p1.y, ymin, max.y);
    OffsetIsClamp(e.p2.x, xmin, max.x);
    OffsetIsClamp(e.p2.y, ymin, max.y);
    var top := Point(Offset(e.p1.x, xmin, far.x), Offset(e.p1.y, ymin, far.y));
    var bot := Point(Offset(e.p2.x, xmin, far.x), Offset(e.p2.y, ymin, far.y));
    if top.y == bot.y { return null; }
    assert top.y < bot.y by { ClampKeepsOrder(e.p1.y, e.p2.y, ymin); }
    edge := new BoEdge(id, Edge(top, bot, !e.clockWise));
  }

  method MakeEdges(polygon: seq<PolygonEdge>, limits: Limits, xmin: int, ymin: int, far: Point, ghost max: Point)
    returns (edges: seq<BoEdge>)
    requires ValidPolygon(polygon) && Int32(xmin) && Int32(ymin) && PointIs32(max)
    requires Extremes(Xs(polygon), xmin, max.x) && Extremes(Ys(polygon), ymin, max.y)
    requires far == Point(ClampedFar(xmin, max.x), ClampedFar(ymin, max.y))
    ensures EdgeArray(edges, KeptEdges(polygon, limits, xmin, ymin))
    ensures forall i :: 0 <= i < |edges| ==> fresh(edges[i]) && edges[i].deferred == Closed
  {
    hide Extremes, ClampedFar, Discarded;
    edges := [];
    for i := 0 to |polygon|
      invariant EdgeArray(edges, KeptEdges(polygon[..i], limits, xmin, ymin))
      invariant forall j :: 0 <= j < |edges| ==> fresh(edges[j]) && edges[j].deferred == Closed
    {
      InBox(polygon, i, xmin, ymin, max.x, max.y);
      assert polygon[..i + 1][..i] == polygon[..i];
      var edge := MakeEdge(polygon[i], |edges|, limits, xmin, ymin, far, max);
      if edge != null { edges := edges + [edge]; }
    }
    assert polygon[..|polygon|] == polygon;
  }

  lemma ShapesOf(edges: seq<BoEdge>, shapes: Edges)
    requires EdgeArray(edges, shapes)
    ensures Shapes(edges) == shapes
  {
  }

  // The trapezoids handed back, as those of a completed run on the kept edges.
  ghost predicate Tessellated(polygon: seq<PolygonEdge>, limits: Limits, rule: FillRule, min: Point, max: Point,
                              run: seq<Full>, last: Full, out: seq<Trapezoid>)
  {
    var shapes := KeptEdges(polygon, limits, min.x, min.y);
    var strips := last.traps.out;
    && Extremes(Xs(polygon), min.x, max.x) && Extremes(Ys(polygon), min.y, max.y)
    && ValidEdges(shapes) && AllInRange(shapes)
    && RunFull(shapes, rule, run) && last == run[|run| - 1] && Done(last.core)
    && |out| == |strips|
    && forall i :: 0 <= i < |out| ==>
         KnownStrip(shapes, strips[i]) && out[i] == Emitted(shapes, strips[i], min.x, min.y)
  }

  ghost predicate IsTessellation(polygon: seq<PolygonEdge>, limits: Limits, rule: FillRule, out: seq<Trapezoid>) {
    exists min, max, run, last :: Tessellated(polygon, limits, rule, min, max, run, last, out)
  }

  lemma BoxIs32(polygon: seq<PolygonEdge>, min: Point, max: Point)
    requires ValidPolygon(polygon) && Extremes(Xs(polygon), min.x, max.x) && Extremes(Ys(polygon), min.y, max.y)
    ensures PointIs32(min) && PointIs32(max)
  {
    AllAre32(polygon);
  }

  lemma {:induction false} AllAre32(polygon: seq<PolygonEdge>)
    requires ValidPolygon(polygon)
    ensures forall v :: v in Xs(polygon) || v in Ys(polygon) ==> Int32(v)
  {
    if polygon != [] { AllAre32(polygon[..|polygon| - 1]); }
  }

  // _cairo_bentley_ottmann_tessellate_polygon: the sweep runs on the kept edges, and
  // its trapezoids come back moved by the near corner of the box.
  method TessellatePolygon(polygon: seq<PolygonEdge>, limits: Limits, rule: FillRule) returns (out: seq<Trapezoid>)
    requires ValidPolygon(polygon)
    ensures if polygon == [] then out == [] else IsTessellation(polygon, limits, rule, out)
  {
    if polygon == [] { return []; }
    hide Extremes, Discarded, RunsTo, RunFull, KeptEdges;
    var xmin, ymin, xmax, ymax := BoundingBox(polygon);
    ghost var min, max := Point(xmin, ymin), Point(xmax, ymax);
    BoxIs32(polygon, min, max);
    BoxCorner(polygon, xmin, ymin, xmax, ymax);
    var edges := MakeEdges(polygon, limits, xmin, ymin, Point(ClampedFar(xmin, xmax), ClampedFar(ymin, ymax)), max);
    ghost var shapes := KeptEdges(polygon, limits, xmin, ymin);
    KeptEdgesFit(polygon, limits, xmin, ymin);
    ShapesOf(edges, shapes);
    var traps := new BoTraps(xmin, ymin);
    ghost var run, last;
    var count;
    count, run, last := Tessellate(edges, rule, traps);
    out := traps.traps;
    RunEnds(shapes, rule, run, last);
    assert Tessellated(polygon, limits, rule, min, max, run, last, out);
  }

  lemma RunEnds(shapes: Edges, rule: FillRule, run: seq<Full>, last: Full)
    requires RunsTo(shapes, rule, run, last)
    ensures RunFull(shapes, rule, run) && last == run[|run| - 1]
  {
  }

  // ---- What the caller gets ----

  ghost predicate TrapezoidCovers(t: Trapezoid, x: real, y: real) {
    var l, r := Edge(t.left.p1, t.left.p2, false), Edge(t.right.p1, t.right.p2, false);
    Downward(l) && Downward(r) && t.top as real <= y < t.bottom as real && XAt(l, y) < x < XAt(r, y)
  }

  lemma ShiftedXAt(e: Edge, dx: int, dy: int, y: real)
    requires Downward(e)
    ensures var l := Shifted(e, dx, dy);
      var m := Edge(l.p1, l.p2, false);
      Downward(m) && XAt(m, y + dy as real) == XAt(e, y) + dx as real
  {
  }

  // Moving back to the input's coordinates moves what is covered.
  lemma EmittedCovers(shapes: Edges, s: Strip, dx: int, dy: int, x: real, y: real)
    requires ValidEdges(shapes) && KnownStrip(shapes, s)
    ensures TrapezoidCovers(Emitted(shapes, s, dx, dy), x + dx as real, y + dy as real) <==>
            CoversPoint(shapes, s, x, y)
  {
    hide XAt;
    ShiftedXAt(shapes[s.left], dx, dy, y);
    ShiftedXAt(shapes[s.right], dx, dy, y);
  }

  // For a polygon whose kept edges cross only at integer points: on quiet rows, off the
  // edges, the trapezoids returned cover exactly what a brute-force scanline fills,
  // each point once.
  lemma PolygonIsFilled(polygon: seq<PolygonEdge>, limits: Limits, rule: FillRule, min: Point, max: Point,
                        run: seq<Full>, last: Full, out: seq<Trapezoid>, x: real, y: real)
    requires Tessellated(polygon, limits, rule, min, max, run, last, out)
    requires IntegerCrossings(KeptEdges(polygon, limits, min.x, min.y))
    requires QuietRow(KeptEdges(polygon, limits, min.x, min.y), y)
    requires OffEdges(KeptEdges(polygon, limits, min.x, min.y), x, y)
    ensures (exists i :: 0 <= i < |out| && TrapezoidCovers(out[i], x + min.x as real, y + min.y as real))
       <==> Filled(KeptEdges(polygon, limits, min.x, min.y), rule, x, y)
    ensures forall i, j :: 0 <= i < j < |out| ==>
              !(TrapezoidCovers(out[i], x + min.x as real, y + min.y as real)
                && TrapezoidCovers(out[j], x + min.x as real, y + min.y as real))
  {
    var shapes := KeptEdges(polygon, limits, min.x, min.y);
    hide Filled, QuietRow, OffEdges, IntegerCrossings, RunFull, TrapezoidCovers, CoversPoint, Emitted, KeptEdges;
    SweepFillsScanline(shapes, rule, run, x, y);
    var strips := last.traps.out;
    forall i | 0 <= i < |out|
      ensures TrapezoidCovers(out[i], x + min.x as real, y + min.y as real) <==> CoversPoint(shapes, strips[i], x, y)
    {
      EmittedCovers(shapes, strips[i], min.x, min.y, x, y);
    }
  }

  // ---- Limits ----

  // A row that passes strictly between the ends of an edge.
  predicate Reaches(e: PolygonEdge, y: real) {
    e.p1.y as real < y < e.p2.y as real
  }

  // What lies outside the limits is what reaches no row strictly between them.
  lemma LimitsExactly(e: PolygonEdge, limits: Limits)
    requires limits.Rows? && limits.top < limits.bottom && e.p1.y < e.p2.y
    ensures OutsideLimits(e, limits) <==>
              forall y: real :: Reaches(e, y) ==> !(limits.top as real < y < limits.bottom as real)
  {
    if !OutsideLimits(e, limits) {
      var y := (if e.p1.y < limits.top then limits.top else e.p1.y) as real + 0.5;
      assert Reaches(e, y);
    }
  }

  // Some edge spanning the row passes to the right of the point.
  ghost predicate Bounded(edges: Edges, x: real, y: real)
    requires ValidEdges(edges)
  {
    exists e :: 0 <= e < |edges| && Spans(edges[e], y) && XAt(edges[e], y) > x
  }

  lemma {:induction false} CrossedPrefix(a: Edges, b: Edges, rule: FillRule, x: real, y: real, n: nat)
    requires ValidEdges(a) && ValidEdges(b) && n <= |a| && n <= |b| && a[..n] == b[..n]
    ensures Crossed(a, rule, x, y, n) == Crossed(b, rule, x, y, n)
  {
    hide XAt;
    if n > 0 {
      assert a[n - 1] == a[..n][n - 1] == b[..n][n - 1] == b[n - 1];
      assert a[..n - 1] == a[..n][..n - 1] == b[..n][..n - 1] == b[..n - 1];
      CrossedPrefix(a, b, rule, x, y, n - 1);
    }
  }

  lemma OneMoreEdge(a: Edges, e: Edge, rule: FillRule, x: real, y: real)
    requires ValidEdges(a) && Downward(e)
    ensures ValidEdges(a + [e])
    ensures Crossed(a + [e], rule, x, y, |a| + 1)
         == if Spans(e, y) && XAt(e, y) < x then Turn(rule, e, Crossed(a, rule, x, y, |a|))
            else Crossed(a, rule, x, y, |a|)
    ensures Bounded(a + [e], x, y) <==> Bounded(a, x, y) || (Spans(e, y) && XAt(e, y) > x)
  {
    hide XAt, Spans;
    var b := a + [e];
    assert b[..|a|] == a[..|a|];
    CrossedPrefix(b, a, rule, x, y, |a|);
    assert b[|a|] == e;
    if Bounded(a, x, y) {
      var i :| 0 <= i < |a| && Spans(a[i], y) && XAt(a[i], y) > x;
      assert b[i] == a[i];
    }
  }

  // An edge outside the limits does not reach the rows within them.
  lemma OutsideDoesNotSpan(e: PolygonEdge, limits: Limits, min: Point, y: real)
    requires min.y <= e.p1.y <= e.p2.y && OutsideLimits(e, limits)
    requires limits.top as real < y + min.y as real < limits.bottom as real
    requires Clamp(e.p1.y, min.y) != Clamp(e.p2.y, min.y)
    ensures !Spans(ClampedEdge(e, min.x, min.y), y)
  {
  }

  lemma LastEdge(polygon: seq<PolygonEdge>, limits: Limits, min: Point)
    requires polygon != []
    ensures var e, before := polygon[|polygon| - 1], KeptEdges(polygon[..|polygon| - 1], limits, min.x, min.y);
      KeptEdges(polygon, limits, min.x, min.y)
      == if Discarded(e, limits, min.y) then before else before + [ClampedEdge(e, min.x, min.y)]
  {
  }

  lemma {:induction false} LimitsKeepTheCount(polygon: seq<PolygonEdge>, limits: Limits, rule: FillRule,
                                              min: Point, x: real, y: real)
    requires Cornered(polygon, min.x, min.y) && limits.Rows?
    requires limits.top as real < y + min.y as real < limits.bottom as real
    ensures var all, kept := KeptEdges(polygon, Unlimited, min.x, min.y), KeptEdges(polygon, limits, min.x, min.y);
      && ValidEdges(all) && ValidEdges(kept)
      && Crossed(kept, rule, x, y, |kept|) == Crossed(all, rule, x, y, |all|)
      && (Bounded(kept, x, y) <==> Bounded(all, x, y))
  {
    hide Crossed, Bounded, Spans, XAt, Clamp;
    if polygon != [] {
      var n := |polygon| - 1;
      var e := polygon[n];
      LastEdge(polygon, Unlimited, min);
      LastEdge(polygon, limits, min);
      LimitsKeepTheCount(polygon[..n], limits, rule, min, x, y);
      var all, kept := KeptEdges(polygon[..n], Unlimited, min.x, min.y), KeptEdges(polygon[..n], limits, min.x, min.y);
      if Clamp(e.p1.y, min.y) != Clamp(e.p2.y, min.y) {
        ClampKeepsOrder(e.p1.y, e.p2.y, min.y);
        var c := ClampedEdge(e, min.x, min.y);
        OneMoreEdge(all, c, rule, x, y);
        OneMoreEdge(kept, c, rule, x, y);
        if OutsideLimits(e, limits) { OutsideDoesNotSpan(e, limits, min, y); }
      }
    }
  }

  // Within the limits, discarding the edges outside them changes no fill.
  lemma LimitsKeepTheFill(polygon: seq<PolygonEdge>, limits: Limits, rule: FillRule,
                          min: Point, x: real, y: real)
    requires Cornered(polygon, min.x, min.y) && limits.Rows?
    requires limits.top as real < y + min.y as real < limits.bottom as real
    ensures var all, kept := KeptEdges(polygon, Unlimited, min.x, min.y), KeptEdges(polygon, limits, min.x, min.y);
      ValidEdges(all) && ValidEdges(kept) && (Filled(kept, rule, x, y) <==> Filled(all, rule, x, y))
  {
    hide Crossed, Spans, XAt, KeptEdges;
    LimitsKeepTheCount(polygon, limits, rule, min, x, y);
  }
}
