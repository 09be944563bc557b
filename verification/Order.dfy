// The left-to-right order of edges around a position of the sweep, under the
// source's tilt rule: on the current row the sweep has passed the positions to
// the left and not yet those to the right.
module Order {
  import opened Geometry
  import opened Intersect

  datatype Pos = Pos(x: real, y: real)

  function PosOf(p: Point): Pos {
    Pos(p.x as real, p.y as real)
  }

  // Sweep order: by row, then by column.
  predicate Precedes(p: Pos, q: Pos) {
    p.y < q.y || (p.y == q.y && p.x < q.x)
  }

  lemma PrecedesIsCompare(a: Point, b: Point)
    ensures Precedes(PosOf(a), PosOf(b)) <==> ComparePoints(a, b) < 0
    ensures PosOf(a) == PosOf(b) <==> a == b
  {
  }

  // a may stand left of b when the sweep reaches p, before anything happens there:
  // crossings left of p on its row are done, crossings right of p are not, and at p
  // itself either order will do.
  ghost predicate OrderedBefore(a: Edge, b: Edge, p: Pos)
    requires Downward(a) && Downward(b)
  {
    var xa, xb := XAt(a, p.y), XAt(b, p.y);
    xa < xb || (xa == xb
      && (xa < p.x ==> Slope(a) <= Slope(b))
      && (xa > p.x ==> Slope(a) >= Slope(b)))
  }

  // a stands left of b once the crossings at p are done too.
  ghost predicate OrderedAfter(a: Edge, b: Edge, p: Pos)
    requires Downward(a) && Downward(b)
  {
    var xa, xb := XAt(a, p.y), XAt(b, p.y);
    xa < xb || (xa == xb
      && (xa <= p.x ==> Slope(a) <= Slope(b))
      && (xa > p.x ==> Slope(a) >= Slope(b)))
  }

  // While events at p are being processed: edges that start at p are inserted in
  // their final place among those through p.
  ghost predicate OrderedAt(a: Edge, b: Edge, p: Pos)
    requires Downward(a) && Downward(b)
  {
    && OrderedBefore(a, b, p)
    && (PosOf(a.top) == p || PosOf(b.top) == p ==> OrderedAfter(a, b, p))
  }

  lemma AfterIsTransitive(a: Edge, b: Edge, c: Edge, p: Pos)
    requires Downward(a) && Downward(b) && Downward(c)
    requires OrderedAfter(a, b, p) && OrderedAfter(b, c, p)
    ensures OrderedAfter(a, c, p)
  {
    hide Slope, XAt;
  }

  lemma BeforeIsTransitive(a: Edge, b: Edge, c: Edge, p: Pos)
    requires Downward(a) && Downward(b) && Downward(c)
    requires OrderedBefore(a, b, p) && OrderedBefore(b, c, p)
    ensures OrderedBefore(a, c, p)
  {
    hide Slope, XAt;
  }

  lemma AfterIsBefore(a: Edge, b: Edge, p: Pos)
    requires Downward(a) && Downward(b) && OrderedAfter(a, b, p)
    ensures OrderedBefore(a, b, p) && OrderedAt(a, b, p)
  {
    hide Slope, XAt;
  }

  ghost function CrossPos(a: Edge, b: Edge): Pos
    requires Downward(a) && Downward(b) && Slope(a) != Slope(b)
  {
    Pos(CrossX(a, b), CrossY(a, b))
  }

  // Between p and q the order of two edges under way changes only at a crossing
  // strictly inside both that comes before q.
  lemma OrderKept(a: Edge, b: Edge, p: Pos, q: Pos)
    requires Downward(a) && Downward(b)
    requires Precedes(p, q) && OrderedAt(a, b, p)
    requires !Precedes(p, PosOf(a.top)) && !Precedes(p, PosOf(b.top))
    requires !Precedes(PosOf(a.bottom), q) && !Precedes(PosOf(b.bottom), q)
    requires CrossInside(a, b) && Slope(a) > Slope(b) ==> !Precedes(CrossPos(a, b), q)
    ensures OrderedBefore(a, b, q)
  {
    hide Slope, XAt, CrossX, CrossY;
    GapMoves(a, b, p.y, q.y);
    if Slope(a) > Slope(b) {
      var c := CrossPos(a, b);
      CrossOnBoth(a, b);
      CrossIsTheMeeting(a, b, p.y);
      CrossIsTheMeeting(a, b, q.y);
      if c.y <= p.y { GapMoves(a, b, c.y, p.y); } else { GapMoves(a, b, p.y, c.y); }
      if c.y <= q.y { GapMoves(a, b, c.y, q.y); } else { GapMoves(a, b, q.y, c.y); }
    }
  }

  // At p, with no crossing at p strictly inside both, edges through p are in final order.
  lemma OrderSettled(a: Edge, b: Edge, p: Pos)
    requires Downward(a) && Downward(b) && OrderedAt(a, b, p)
    requires !Precedes(p, PosOf(a.top)) && !Precedes(p, PosOf(b.top))
    requires Precedes(p, PosOf(a.bottom)) && Precedes(p, PosOf(b.bottom))
    requires CrossInside(a, b) && Slope(a) > Slope(b) ==> CrossPos(a, b) != p
    ensures OrderedAfter(a, b, p)
  {
    hide Slope, XAt, CrossX, CrossY;
    if Slope(a) > Slope(b) {
      CrossOnBoth(a, b);
      CrossIsTheMeeting(a, b, p.y);
      if XAt(a, p.y) == XAt(b, p.y) == p.x {
        assert CrossPos(a, b) == p;
      }
    }
  }
}
