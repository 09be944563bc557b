// The trapezoid cache on the heap: each edge's deferred trapezoid, and the traps
// they are emitted to (cairo-bentley-ottmann.c, lines 1150-1250 and 1303-1341).
module DeferredTraps {
  import opened Geometry
  import opened Events
  import opened Sweep
  import opened Trapezoids
  import opened ActiveList

  datatype Line = Line(p1: Point, p2: Point)

  // cairo_trapezoid_t
  datatype Trapezoid = Trapezoid(top: int, bottom: int, left: Line, right: Line)

  function Shifted(e: Edge, dx: int, dy: int): Line {
    Line(Point(e.top.x + dx, e.top.y + dy), Point(e.bottom.x + dx, e.bottom.y + dy))
  }

  predicate KnownStrip(shapes: Edges, s: Strip) {
    s.left < |shapes| && s.right < |shapes|
  }

  // The trapezoid a strip becomes in the coordinates of the input.
  function Emitted(shapes: Edges, s: Strip, dx: int, dy: int): Trapezoid
    requires KnownStrip(shapes, s)
  {
    Trapezoid(s.top + dy, s.bottom + dy, Shifted(shapes[s.left], dx, dy), Shifted(shapes[s.right], dx, dy))
  }

  // cairo_bo_traps_t; `strips` records the strip behind each trapezoid.
  class BoTraps {
    const xmin: int
    const ymin: int
    var traps: seq<Trapezoid>
    ghost var strips: seq<Strip>

    constructor (xmin: int, ymin: int)
      ensures this.xmin == xmin && this.ymin == ymin && traps == [] && strips == []
    {
      this.xmin, this.ymin, traps, strips := xmin, ymin, [], [];
    }

    ghost predicate Valid(shapes: Edges)
      reads this
    {
      && |traps| == |strips|
      && forall i :: 0 <= i < |strips| ==>
           KnownStrip(shapes, strips[i]) && traps[i] == Emitted(shapes, strips[i], xmin, ymin)
    }

    // _cairo_traps_add_trap without limits: append.
    method Add(t: Trapezoid, ghost shapes: Edges, ghost s: Strip)
      requires Valid(shapes) && KnownStrip(shapes, s) && t == Emitted(shapes, s, xmin, ymin)
      modifies this
      ensures Valid(shapes) && strips == old(strips) + [s] && traps == old(traps) + [t]
    {
      traps := traps + [t];
      strips := strips + [s];
    }
  }

  // The edge array: position i holds edge i of the given shape.
  ghost predicate EdgeArray(edges: seq<BoEdge>, shapes: Edges) {
    && |edges| == |shapes|
    && forall i :: 0 <= i < |edges| ==> edges[i].id == i && edges[i].shape == shapes[i]
  }

  // The deferred trapezoids of the edges and the emitted strips are those of t.
  ghost predicate Holds(edges: seq<BoEdge>, shapes: Edges, traps: BoTraps, t: Traps)
    requires |edges| == |shapes| && KnownTraps(shapes, t)
    reads edges`deferred, traps
  {
    && traps.Valid(shapes) && traps.strips == t.out
    && forall i :: 0 <= i < |edges| ==>
         edges[i].deferred == if i in t.deferred then Open(edges[t.deferred[i].right], t.deferred[i].top) else Closed
  }

  // _cairo_bo_edge_end_trap
  method EndEdgeTrap(left: BoEdge, bot: int, traps: BoTraps,
                     ghost edges: seq<BoEdge>, ghost shapes: Edges, ghost t: Traps)
    requires EdgeArray(edges, shapes) && KnownTraps(shapes, t) && Holds(edges, shapes, traps, t)
    requires left in edges
    modifies left`deferred, traps
    ensures Holds(edges, shapes, traps, EndTrap(shapes, t, left.id, bot))
  {
    if left.deferred.Closed? { return; }
    var right, top := left.deferred.right, left.deferred.top;
    var b := if right.shape.bottom.y < bot then right.shape.bottom.y else bot;
    assert edges[left.id] == left;
    ghost var d := t.deferred[left.id];
    assert right == edges[d.right];
    if top < b && !SameEnds(left.shape, right.shape) {
      traps.Add(Trapezoid(top + traps.ymin, b + traps.ymin, Shifted(left.shape, traps.xmin, traps.ymin),
                          Shifted(right.shape, traps.xmin, traps.ymin)), shapes, Strip(left.id, right.id, top, b));
    }
    left.deferred := Closed;
  }

  // _cairo_bo_edge_start_or_continue_trap
  method StartOrContinueEdgeTrap(e: BoEdge, top: int, traps: BoTraps,
                                 ghost edges: seq<BoEdge>, ghost shapes: Edges, ghost t: Traps, ghost next: Neighbour)
    requires EdgeArray(edges, shapes) && KnownTraps(shapes, t) && Holds(edges, shapes, traps, t)
    requires e in edges && KnownNeighbour(shapes, next)
    requires e.next == (if next.Present? then edges[next.id] else null)
    modifies e`deferred, traps
    ensures e.id < |shapes| && Holds(edges, shapes, traps, StartOrContinue(shapes, t, e.id, next, top))
  {
    hide EndTrap;
    assert edges[e.id] == e;
    if e.deferred.Open? {
      if e.deferred.right == e.next { return; }
      EndEdgeTrap(e, top, traps, edges, shapes, t);
    } else {
      NothingToEnd(shapes, t, e.id, top);
    }
    if e.next != null {
      e.deferred := Open(e.next, top);
    }
  }

  lemma NothingToEnd(shapes: Edges, t: Traps, e: nat, top: int)
    requires KnownTraps(shapes, t) && e !in t.deferred
    ensures EndTrap(shapes, t, e, top) == t
  {
  }

  // The sweep line on the heap holds the edges at the positions of `line`.
  ghost predicate OnLine(active: seq<BoEdge>, edges: seq<BoEdge>, line: seq<nat>) {
    && |active| == |line|
    && forall i :: 0 <= i < |line| ==> line[i] < |edges| && active[i] == edges[line[i]]
  }

  // _active_edges_to_traps
  method ActiveEdgesToTraps(sweep: SweepLine, top: int, rule: FillRule, traps: BoTraps,
                            ghost edges: seq<BoEdge>, ghost shapes: Edges, ghost line: seq<nat>, ghost t: Traps)
    requires EdgeArray(edges, shapes) && KnownTraps(shapes, t) && Holds(edges, shapes, traps, t)
    requires sweep.Valid() && OnLine(sweep.edges, edges, line)
    modifies edges`deferred, traps
    ensures KnownLine(shapes, line) && Holds(edges, shapes, traps, Pass(shapes, rule, line, 0, 0, top, t))
  {
    hide Turn, StartOrContinue, EndTrap, Linked, Chained, Tied, Distinct;
    var inOut := 0;
    var edge := sweep.head;
    ghost var i, u := 0, t;
    while edge != null
      invariant i <= |line| && edge == (if i == |line| then null else sweep.edges[i])
      invariant KnownTraps(shapes, u) && Holds(edges, shapes, traps, u)
      invariant Pass(shapes, rule, line, 0, 0, top, t) == Pass(shapes, rule, line, i, inOut, top, u)
      decreases |line| - i
    {
      inOut := Turn(rule, edge.shape, inOut);
      assert edge == edges[line[i]] && edge.id == line[i];
      ghost var next := Member(line, i + 1);
      ghost var v := Visit(shapes, rule, line, i, inOut, top, u);
      assert edge.next == (if next.Present? then edges[next.id] else null) by {
        NextOnLine(sweep, edges, line, i);
      }
      if !Inside(rule, inOut) {
        EndEdgeTrap(edge, top, traps, edges, shapes, u);
      } else {
        StartOrContinueEdgeTrap(edge, top, traps, edges, shapes, u, next);
      }
      edge, i, u := edge.next, i + 1, v;
    }
  }

  lemma NextOnLine(sweep: SweepLine, edges: seq<BoEdge>, line: seq<nat>, i: nat)
    requires sweep.Valid() && OnLine(sweep.edges, edges, line) && i < |line|
    ensures edges[line[i]].next
         == (if i + 1 < |line| then edges[line[i + 1]] else null)
  {
    assert sweep.edges[i] == edges[line[i]];
    if i + 1 < |line| { assert sweep.edges[i + 1] == edges[line[i + 1]]; }
  }
}
