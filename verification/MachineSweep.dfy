// Machine integers in a whole run: which events and edges the comparators ever see
// (cairo-bentley-ottmann.c, lines 144-151, 363-540 and 1378-1484).
module MachineSweep {
  import opened Geometry
  import opened Intersect
  import opened Events
  import opened EventQueue
  import opened Sweep
  import opened Order
  import opened SweepOrder
  import opened RowZero
  import opened Machine

  // ---- cairo_bo_event_compare in machine integers ----

  function MachineCompareOpposite(edges: Edges, a: Event, b: Event): int
    requires Refers(edges, a) && Refers(edges, b) && CompareKinds(a, b) == 0
  {
    match a
    case Start(e) => MachineComparePoints(edges[b.edge].bottom, edges[e].bottom)
    case Stop(e) => MachineComparePoints(edges[e].top, edges[b.edge].top)
    case Crossing(e1, e2, _) =>
      var c := MachineComparePoints(edges[e2].top, edges[b.e2].top);
      if c != 0 then c
      else
        var c := MachineComparePoints(edges[e2].bottom, edges[b.e2].bottom);
        if c != 0 then c
        else
          var c := MachineComparePoints(edges[e1].top, edges[b.e1].top);
          if c != 0 then c else MachineComparePoints(edges[e1].bottom, edges[b.e1].bottom)
  }

  function MachineCompareEvents(edges: Edges, a: Event, b: Event): int
    requires Refers(edges, a) && Refers(edges, b)
  {
    var c := MachineComparePoints(At(edges, a), At(edges, b));
    if c != 0 then c
    else
      var c := CompareKinds(a, b);
      if c != 0 then c
      else
        var c := MachineSlopeCompare(edges[FirstEdge(a)], edges[FirstEdge(b)]);
        if c != 0 then (if a.Start? then c else -c)
        else
          var c := MachineCompareOpposite(edges, a, b);
          if c != 0 then c else CompareAddresses(a, b)
  }

  lemma CompareOppositeFits(edges: Edges, a: Event, b: Event)
    requires AllInRange(edges) && Refers(edges, a) && Refers(edges, b) && CompareKinds(a, b) == 0
    ensures MachineCompareOpposite(edges, a, b) == CompareOpposite(edges, a, b)
  {
    hide MachineComparePoints, ComparePoints;
    match a
    case Start(e) => ComparePointsFits(edges[b.edge].bottom, edges[e].bottom);
    case Stop(e) => ComparePointsFits(edges[e].top, edges[b.edge].top);
    case Crossing(e1, e2, _) =>
      ComparePointsFits(edges[e2].top, edges[b.e2].top);
      ComparePointsFits(edges[e2].bottom, edges[b.e2].bottom);
      ComparePointsFits(edges[e1].top, edges[b.e1].top);
      ComparePointsFits(edges[e1].bottom, edges[b.e1].bottom);
  }

  lemma CompareEventsFits(edges: Edges, a: Event, b: Event)
    requires AllInRange(edges) && Refers(edges, a) && Refers(edges, b)
    requires PointInRange(At(edges, a)) && PointInRange(At(edges, b))
    ensures MachineCompareEvents(edges, a, b) == CompareEvents(edges, a, b)
  {
    hide MachineComparePoints, ComparePoints, MachineSlopeCompare, SlopeCompare, MachineCompareOpposite,
         CompareOpposite;
    ComparePointsFits(At(edges, a), At(edges, b));
    SlopeCompareFits(edges[FirstEdge(a)], edges[FirstEdge(b)]);
    if CompareKinds(a, b) == 0 { CompareOppositeFits(edges, a, b); }
  }

  // ---- Where reported points lie ----

  // Where the sweep's order is true, what it queues lies in the grid.
  lemma MeetingIsInGrid(left: Edge, right: Edge, y: real)
    requires Downward(left) && Downward(right) && InRange(left) && InRange(right)
    requires y >= 0.0 && XAt(left, y) <= XAt(right, y)
    ensures MeetingBelow(left, right).Meet? ==> PointInRange(MeetingBelow(left, right).at)
  {
    hide XAt, Slope, CrossInside, EdgeIntersect;
    MeetingBelowIsExact(left, right, y);
    if MeetingBelow(left, right).Meet? { ReportedPointInGrid(left, right); }
  }

  // ---- Every comparison of a run ----

  // The crossing of the event lies above row -2^31 and its column out of the grid.
  ghost predicate FarOut(edges: Edges, c: Event)
    requires ValidEdges(edges)
  {
    && c.Crossing? && c.e1 < |edges| && c.e2 < |edges| && Slope(edges[c.e1]) != Slope(edges[c.e2])
    && var a, b := edges[c.e1], edges[c.e2];
      && CrossY(a, b) < -(TWO31 as real)
      && (-(TWO31 as real) - 1.0 < CrossX(a, b) <= -1.0 || CrossX(a, b) >= TWO31 as real)
  }

  predicate Waiting(s: State, ev: Event) {
    ev in s.pending || ev in s.crossings
  }

  // In every reachable state, rounding or not, a waiting event's point is on a row of the
  // grid, and in the grid unless it is that of a crossing far above it and out of it sideways.
  lemma WaitingAreInGrid(edges: Edges, run: seq<State>, i: nat, ev: Event)
    requires ValidEdges(edges) && AllInRange(edges) && Run(edges, run) && i < |run|
    requires Waiting(run[i], ev)
    ensures Refers(edges, ev) && 0 <= At(edges, ev).y < TWO31
    ensures PointInRange(At(edges, ev)) <==> !FarOut(edges, ev)
  {
    hide Inv, MeetingBelow, EdgeIntersect, Slope, CrossX, CrossY, CrossInside, RowZeroInv, CompareEvents;
    QueuedAreTrueOrFar(edges, run, i);
    ReachableInv(edges, run, i);
    InvParts(edges, run[i]);
    if ev in run[i].crossings {
      MeetsAt(edges, run[i], ev);
      var a, b := edges[ev.e1], edges[ev.e2];
      ReportedPointInGrid(a, b);
      if CrossInside(a, b) { CrossInsideIsNotFar(a, b); }
    }
  }

  lemma MeetsAt(edges: Edges, s: State, c: Event)
    requires ValidEdges(edges) && SoundCrossing(edges, s, c)
    ensures Refers(edges, c) && EdgeIntersect(edges[c.e1], edges[c.e2]) == Meet(c.at)
  {
    hide EdgeIntersect;
  }

  lemma CrossInsideIsNotFar(a: Edge, b: Edge)
    requires Downward(a) && Downward(b) && InRange(a) && CrossInside(a, b)
    ensures CrossY(a, b) >= 0.0
  {
    hide XAt, CrossX, CrossY;
  }

  // In every run two edges are ordered exactly on the row of the next event.
  lemma EdgeComparisonsFit(edges: Edges, run: seq<State>, i: nat, a: nat, b: nat)
    requires ValidEdges(edges) && AllInRange(edges) && Run(edges, run) && i < |run|
    requires a < |edges| && b < |edges|
    ensures WellFormed(edges, run[i])
    ensures var s := run[i];
      !NextEvent(edges, s).Nothing? ==>
        var l, r, y := View(edges, s, a), View(edges, s, b), Taken(edges, s).y;
        MachineCompareEdges(l, r, y) == CompareEdges(l, r, y)
  {
    hide FarOut, MachineCompareEdges, CompareEdges, CompareEvents, Run, Inv;
    var s := run[i];
    ReachableInv(edges, run, i);
    InvParts(edges, s);
    if !NextEvent(edges, s).Nothing? {
      NextIsMinimum(edges, s.pending, s.crossings);
      WaitingAreInGrid(edges, run, i, NextEvent(edges, s).ev);
      CompareEdgesFits(View(edges, s, a), View(edges, s, b), Taken(edges, s).y);
    }
  }

  // With integer crossings no event leaves the grid, so all waiting events are compared exactly.
  lemma NothingLeavesTheGrid(edges: Edges, s: State, p: Pos, a: Event, b: Event)
    requires OrderInv(edges, s, p) && Waiting(s, a) && Waiting(s, b)
    ensures Refers(edges, a) && PointInRange(At(edges, a)) && !FarOut(edges, a)
    ensures Refers(edges, b) && PointInRange(At(edges, b)) && !FarOut(edges, b)
    ensures MachineCompareEvents(edges, a, b) == CompareEvents(edges, a, b)
  {
    hide MachineCompareEvents, CompareEvents, FarOut;
    OneInGrid(edges, s, p, a);
    OneInGrid(edges, s, p, b);
    CompareEventsFits(edges, a, b);
  }

  lemma OneInGrid(edges: Edges, s: State, p: Pos, ev: Event)
    requires OrderInv(edges, s, p) && Waiting(s, ev)
    ensures Refers(edges, ev) && PointInRange(At(edges, ev)) && !FarOut(edges, ev)
  {
    hide Inv, IntegerCrossings, AllQueued, LineOrdered, ExactMiddles, CrossX, CrossY, Slope, EdgeIntersect,
         CrossInside, MeetingBelow;
    InvParts(edges, s);
    if ev in s.crossings {
      MeetsAt(edges, s, ev);
      ReportedPointInGrid(edges[ev.e1], edges[ev.e2]);
      CrossInsideIsNotFar(edges[ev.e1], edges[ev.e2]);
    }
  }
}
