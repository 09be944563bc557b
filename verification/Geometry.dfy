// Points, edges and the order of edges along the sweep line
// (cairo-bentley-ottmann.c, lines 135-429).
module Geometry {
  import opened Arith

  datatype Point = Point(x: int, y: int)

  // The unchanging part of a cairo_bo_edge_t.
  datatype Edge = Edge(top: Point, bottom: Point, reversed: bool)

  predicate Downward(e: Edge) {
    e.top.y < e.bottom.y
  }

  // ---- The exact geometry the comparators are judged against ----

  // Inverse slope dx/dy, as the source defines "slope".
  ghost function Slope(e: Edge): real
    requires Downward(e)
  {
    (e.bottom.x - e.top.x) as real / (e.bottom.y - e.top.y) as real
  }

  // The abscissa of the edge's line at ordinate y.
  ghost function XAt(e: Edge, y: real): real
    requires Downward(e)
  {
    e.top.x as real + (y - e.top.y as real) * Slope(e)
  }

  lemma SlopeTimesHeight(e: Edge)
    requires Downward(e)
    ensures Slope(e) * (e.bottom.y - e.top.y) as real == (e.bottom.x - e.top.x) as real
  {
  }

  lemma XAtEnds(e: Edge)
    requires Downward(e)
    ensures XAt(e, e.top.y as real) == e.top.x as real
    ensures XAt(e, e.bottom.y as real) == e.bottom.x as real
  {
    SlopeTimesHeight(e);
    assert (e.bottom.y as real - e.top.y as real) == (e.bottom.y - e.top.y) as real;
  }

  lemma XAtMoved(e: Edge, y: real, z: real)
    requires Downward(e)
    ensures XAt(e, z) == XAt(e, y) + (z - y) * Slope(e)
  {
  }

  // How far b lies to the right of a on row y.
  ghost function Gap(a: Edge, b: Edge, y: real): real
    requires Downward(a) && Downward(b)
  {
    XAt(b, y) - XAt(a, y)
  }

  // The gap of two lines moves with the difference of their slopes.
  lemma GapMoves(a: Edge, b: Edge, y: real, z: real)
    requires Downward(a) && Downward(b) && y <= z
    ensures Slope(a) <= Slope(b) ==> Gap(a, b, y) <= Gap(a, b, z)
    ensures Slope(a) >= Slope(b) ==> Gap(a, b, y) >= Gap(a, b, z)
    ensures Slope(a) < Slope(b) && y < z ==> Gap(a, b, y) < Gap(a, b, z)
    ensures Slope(a) > Slope(b) && y < z ==> Gap(a, b, y) > Gap(a, b, z)
  {
    hide Slope, XAt;
    XAtMoved(a, y, z);
    XAtMoved(b, y, z);
    var t, sa, sb := z - y, Slope(a), Slope(b);
    assert Gap(a, b, z) == Gap(a, b, y) + t * (sb - sa);
    ProductSign(t, sb - sa);
  }

  // Between its ends the edge stays between the abscissae of its ends.
  lemma BetweenEnds(e: Edge, y: real)
    requires Downward(e) && e.top.y as real <= y <= e.bottom.y as real
    ensures var m := Min(e.top.x, e.bottom.x);
            m as real <= XAt(e, y) <= (e.top.x + e.bottom.x - m) as real
  {
    hide Slope;
    XAtEnds(e);
    XAtMoved(e, y, e.bottom.y as real);
    ProductSign(y - e.top.y as real, Slope(e));
    ProductSign(e.bottom.y as real - y, Slope(e));
  }

  // ---- _cairo_bo_point32_compare ----

  function ComparePoints(a: Point, b: Point): int {
    if a.y - b.y != 0 then a.y - b.y else a.x - b.x
  }

  // ---- _slope_compare ----

  // (adx ^ bdx) < 0 tests that exactly one of the two is negative.
  function SlopeCompare(a: Edge, b: Edge): int {
    var adx := a.bottom.x - a.top.x;
    var bdx := b.bottom.x - b.top.x;
    if (adx < 0) != (bdx < 0) then (if adx < 0 then -1 else 1)
    else
      var ady := a.bottom.y - a.top.y;
      var bdy := b.bottom.y - b.top.y;
      Sign(adx * bdy - bdx * ady)
  }

  lemma SlopeSign(e: Edge)
    requires Downward(e)
    ensures SignOf(Slope(e)) == Sign(e.bottom.x - e.top.x)
  {
    var dx, dy := e.bottom.x - e.top.x, e.bottom.y - e.top.y;
    SlopeTimesHeight(e);
    SignScaled(dy as real, Slope(e));
  }

  // The comparison without division orders the exact slopes.
  lemma SlopeCompareIsExact(a: Edge, b: Edge)
    requires Downward(a) && Downward(b)
    ensures SlopeCompare(a, b) == SignOf(Slope(a) - Slope(b))
  {
    var adx, ady := a.bottom.x - a.top.x, a.bottom.y - a.top.y;
    var bdx, bdy := b.bottom.x - b.top.x, b.bottom.y - b.top.y;
    if (adx < 0) != (bdx < 0) {
      SlopeSign(a);
      SlopeSign(b);
    } else {
      SlopeTimesHeight(a);
      SlopeTimesHeight(b);
      MulToReal(adx, bdy);
      MulToReal(bdx, ady);
      MulToReal(ady, bdy);
      var p := ady as real * bdy as real;
      var sa, sb := Slope(a), Slope(b);
      assert (adx * bdy - bdx * ady) as real == p * (sa - sb) by {
        assert adx as real * bdy as real == sa * ady as real * bdy as real;
        assert bdx as real * ady as real == sb * bdy as real * ady as real;
      }
      assert p > 0.0;
      SignScaled(p, sa - sb);
    }
  }

  // ---- edges_compare_x_for_y_general ----

  function CompareXGeneral(a: Edge, b: Edge, y: int): int {
    var adx := a.bottom.x - a.top.x;
    var ady := a.bottom.y - a.top.y;
    var bdx := b.bottom.x - b.top.x;
    var bdy := b.bottom.y - b.top.y;
    var l := (ady * bdy) * (a.top.x - b.top.x);
    var r := (bdx * ady) * (y - b.top.y) - (adx * bdy) * (y - a.top.y);
    if l < r then -1 else if l > r then 1 else 0
  }

  lemma CompareXGeneralIsExact(a: Edge, b: Edge, y: int)
    requires Downward(a) && Downward(b)
    ensures CompareXGeneral(a, b, y) == SignOf(XAt(a, y as real) - XAt(b, y as real))
  {
    var adx, ady := a.bottom.x - a.top.x, a.bottom.y - a.top.y;
    var bdx, bdy := b.bottom.x - b.top.x, b.bottom.y - b.top.y;
    var ya, yb := y - a.top.y, y - b.top.y;
    var l := (ady * bdy) * (a.top.x - b.top.x);
    var r := (bdx * ady) * yb - (adx * bdy) * ya;
    SlopeTimesHeight(a);
    SlopeTimesHeight(b);
    var p := ady as real * bdy as real;
    var sa, sb := Slope(a), Slope(b);
    assert l as real == p * (a.top.x - b.top.x) as real by {
      MulToReal(ady * bdy, a.top.x - b.top.x);
      MulToReal(ady, bdy);
    }
    assert ((bdx * ady) * yb) as real == p * (sb * yb as real) by {
      MulToReal(bdx * ady, yb);
      MulToReal(bdx, ady);
      assert bdx as real * ady as real == p * sb;
    }
    assert ((adx * bdy) * ya) as real == p * (sa * ya as real) by {
      MulToReal(adx * bdy, ya);
      MulToReal(adx, bdy);
      assert adx as real * bdy as real == p * sa;
    }
    var d := XAt(a, y as real) - XAt(b, y as real);
    assert (l - r) as real == p * d;
    assert p > 0.0 by { MulToReal(ady, bdy); }
    SignScaled(p, d);
  }

  // ---- edge_compare_for_y_against_x ----

  function CompareAgainstX(a: Edge, y: int, x: int): int {
    var adx := a.bottom.x - a.top.x;
    var ady := a.bottom.y - a.top.y;
    Sign((y - a.top.y) * adx - (x - a.top.x) * ady)
  }

  lemma CompareAgainstXIsExact(a: Edge, y: int, x: int)
    requires Downward(a)
    ensures CompareAgainstX(a, y, x) == SignOf(XAt(a, y as real) - x as real)
  {
    var adx, ady := a.bottom.x - a.top.x, a.bottom.y - a.top.y;
    var dy, dx := y - a.top.y, x - a.top.x;
    SlopeTimesHeight(a);
    MulToReal(dy, adx);
    MulToReal(dx, ady);
    var d := XAt(a, y as real) - x as real;
    var p := ady as real;
    assert d == dy as real * Slope(a) - dx as real;
    assert dy as real * adx as real == p * (dy as real * Slope(a));
    assert (dy * adx - dx * ady) as real == p * d;
    SignScaled(p, d);
  }

  // ---- edges_compare_x_for_y ----

  datatype Abscissa = Known(x: int) | Unknown

  // The abscissa read off an end point when the sweep line is on one.
  function EndAbscissa(e: Edge, y: int): Abscissa {
    if y == e.top.y then Known(e.top.x)
    else if y == e.bottom.y then Known(e.bottom.x)
    else Unknown
  }

  function CompareX(a: Edge, b: Edge, y: int): int {
    match (EndAbscissa(a, y), EndAbscissa(b, y))
    case (Unknown, Unknown) => CompareXGeneral(a, b, y)
    case (Known(ax), Unknown) => -CompareAgainstX(b, y, ax)
    case (Unknown, Known(bx)) => CompareAgainstX(a, y, bx)
    case (Known(ax), Known(bx)) => ax - bx
  }

  // All four cases give the sign of the exact difference of abscissae.
  lemma CompareXIsExact(a: Edge, b: Edge, y: int)
    requires Downward(a) && Downward(b)
    ensures Sign(CompareX(a, b, y)) == SignOf(XAt(a, y as real) - XAt(b, y as real))
  {
    XAtEnds(a);
    XAtEnds(b);
    match (EndAbscissa(a, y), EndAbscissa(b, y))
    case (Unknown, Unknown) => CompareXGeneralIsExact(a, b, y);
    case (Known(ax), Unknown) => CompareAgainstXIsExact(b, y, ax);
    case (Unknown, Known(bx)) => CompareAgainstXIsExact(a, y, bx);
    case (Known(ax), Known(bx)) =>
  }

  // ---- _cairo_bo_sweep_line_compare_edges ----

  // An edge as the sweep line sees it: its geometry, the last intersection
  // point stored in `middle` (initially the top), and its array position, which
  // stands for its address.
  datatype Active = Active(edge: Edge, middle: Point, id: nat)

  // The decision of the bounding boxes spanned by middle and bottom, 0 when they overlap.
  function CompareBoxes(a: Active, b: Active): int {
    var amin := Min(a.middle.x, a.edge.bottom.x);
    var amax := a.middle.x + a.edge.bottom.x - amin;
    var bmin := Min(b.middle.x, b.edge.bottom.x);
    var bmax := b.middle.x + b.edge.bottom.x - bmin;
    if amax < bmin then -1 else if amin > bmax then 1 else 0
  }

  function CompareEdges(a: Active, b: Active, y: int): int {
    if a.id == b.id then 0
    else if CompareBoxes(a, b) != 0 then CompareBoxes(a, b)
    else if CompareX(a.edge, b.edge, y) != 0 then CompareX(a.edge, b.edge, y)
    else if SlopeCompare(a.edge, b.edge) != 0 then SlopeCompare(a.edge, b.edge)
    else if ComparePoints(a.edge.top, b.edge.top) != 0 then ComparePoints(a.edge.top, b.edge.top)
    else if ComparePoints(a.edge.bottom, b.edge.bottom) != 0 then ComparePoints(a.edge.bottom, b.edge.bottom)
    else if a.id > b.id then 1 else -1
  }

  // `middle` is a point of the edge at or above row y, and y is not below the edge.
  ghost predicate Exact(a: Active, y: int) {
    && Downward(a.edge)
    && XAt(a.edge, a.middle.y as real) == a.middle.x as real
    && a.middle.y <= y <= a.edge.bottom.y
  }

  // Between middle and bottom the edge stays inside their box.
  lemma WithinBox(a: Active, y: int)
    requires Exact(a, y)
    ensures var m, b := a.middle.x, a.edge.bottom.x;
            Min(m, b) as real <= XAt(a.edge, y as real) <= (m + b - Min(m, b)) as real
  {
    var e, s := a.edge, Slope(a.edge);
    XAtEnds(e);
    XAtMoved(e, a.middle.y as real, y as real);
    XAtMoved(e, y as real, e.bottom.y as real);
    ProductSign(y as real - a.middle.y as real, s);
    ProductSign(e.bottom.y as real - y as real, s);
  }

  // The reference order at row y: exact abscissa, exact slope, top, bottom, identity.
  ghost function EdgeKey(a: Active, y: int): seq<real>
    requires Downward(a.edge)
  {
    [XAt(a.edge, y as real), Slope(a.edge),
     a.edge.top.y as real, a.edge.top.x as real,
     a.edge.bottom.y as real, a.edge.bottom.x as real, a.id as real]
  }

  // What each test of the cascade says about the components of the keys.
  lemma EdgeKeyTests(a: Active, b: Active, y: int)
    requires Exact(a, y) && Exact(b, y)
    ensures var ka, kb := EdgeKey(a, y), EdgeKey(b, y);
      && (CompareBoxes(a, b) != 0 ==> CompareBoxes(a, b) == SignOf(ka[0] - kb[0]))
      && Sign(CompareX(a.edge, b.edge, y)) == SignOf(ka[0] - kb[0])
      && SlopeCompare(a.edge, b.edge) == SignOf(ka[1] - kb[1])
  {
    WithinBox(a, y);
    WithinBox(b, y);
    CompareXIsExact(a.edge, b.edge, y);
    SlopeCompareIsExact(a.edge, b.edge);
  }

  // The cascade is exact if and only if the bounding boxes do not decide, or decide
  // rightly, whatever the middles are.
  lemma CompareEdgesIsLexExactly(a: Active, b: Active, y: int)
    requires Downward(a.edge) && Downward(b.edge) && a.id != b.id
    ensures Sign(CompareEdges(a, b, y)) == LexCompare(EdgeKey(a, y), EdgeKey(b, y)) <==>
              CompareBoxes(a, b) == 0 || CompareBoxes(a, b) == LexCompare(EdgeKey(a, y), EdgeKey(b, y))
  {
    CompareXIsExact(a.edge, b.edge, y);
    SlopeCompareIsExact(a.edge, b.edge);
    CascadeIsLex(EdgeKey(a, y), EdgeKey(b, y));
  }

  lemma CompareEdgesIsLex(a: Active, b: Active, y: int)
    requires Exact(a, y) && Exact(b, y)
    requires a.id == b.id ==> a == b
    ensures Sign(CompareEdges(a, b, y)) == LexCompare(EdgeKey(a, y), EdgeKey(b, y))
  {
    EdgeKeyTests(a, b, y);
    CascadeIsLex(EdgeKey(a, y), EdgeKey(b, y));
  }

  lemma CascadeIsLex(a: seq<real>, b: seq<real>)
    requires |a| == |b| == 7
    ensures LexCompare(a, b)
         == if a[0] != b[0] then SignOf(a[0] - b[0])
            else if a[1] != b[1] then SignOf(a[1] - b[1])
            else if a[2] != b[2] then SignOf(a[2] - b[2])
            else if a[3] != b[3] then SignOf(a[3] - b[3])
            else if a[4] != b[4] then SignOf(a[4] - b[4])
            else if a[5] != b[5] then SignOf(a[5] - b[5])
            else SignOf(a[6] - b[6])
  {
    LexZero(a, b);
    if a != b {
      LexDecides(a, b, FirstDifference(a, b));
    }
  }

  // Only an edge compares equal to itself, and the comparison is antisymmetric, with
  // rounded middles too.
  lemma CompareEdgesTotal(a: Active, b: Active, y: int)
    requires Downward(a.edge) && Downward(b.edge)
    ensures CompareEdges(a, b, y) == 0 <==> a.id == b.id
    ensures CompareEdges(a, b, y) < 0 <==> CompareEdges(b, a, y) > 0
  {
    hide CompareX, SlopeCompare, XAt, Slope;
    CompareXIsExact(a.edge, b.edge, y);
    CompareXIsExact(b.edge, a.edge, y);
    SlopeCompareIsExact(a.edge, b.edge);
    SlopeCompareIsExact(b.edge, a.edge);
  }

  lemma CompareEdgesTransitive(a: Active, b: Active, c: Active, y: int)
    requires Exact(a, y) && Exact(b, y) && Exact(c, y)
    requires a.id == b.id ==> a == b
    requires b.id == c.id ==> b == c
    requires a.id == c.id ==> a == c
    requires CompareEdges(a, b, y) < 0 && CompareEdges(b, c, y) < 0
    ensures CompareEdges(a, c, y) < 0
  {
    CompareEdgesIsLex(a, b, y);
    CompareEdgesIsLex(b, c, y);
    CompareEdgesIsLex(a, c, y);
    LexTransitive(EdgeKey(a, y), EdgeKey(b, y), EdgeKey(c, y));
  }
}
