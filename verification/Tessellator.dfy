// The tessellator's main loop on the heap, proved to be a run of the sweep
// (cairo-bentley-ottmann.c, lines 778-927 and 1346-1499).
module Tessellator {
  import opened Geometry
  import opened Intersect
  import opened Events
  import opened EventQueue
  import opened Sweep
  import opened SweepOrder
  import opened Trapezoids
  import opened MachineOrder
  import opened ActiveList
  import opened DeferredTraps

  // Of starts and stops in range and of stored crossings, the event dequeued is the one
  // the machine dequeues if and only if the first ones fit.
  ghost predicate MachinesIfFits(edges: Edges, pending: seq<Event>, crossings: seq<Event>, d: Dequeued)
    requires AllRefer(edges, pending) && AllRefer(edges, crossings)
  {
    && AllInRange(edges) && FirstsStorable(edges, pending, crossings)
    && (forall x :: x in pending ==> !x.Crossing?) && (forall x :: x in crossings ==> x.Crossing?)
    ==> (d == MachineDequeue(edges, pending, crossings) <==> FirstsFit(edges, pending, crossings))
  }

  lemma DequeuedIsMachines(edges: Edges, pending: seq<Event>, crossings: seq<Event>)
    requires AllRefer(edges, pending) && AllRefer(edges, crossings)
    ensures MachinesIfFits(edges, pending, crossings, Next(edges, pending, crossings))
  {
    hide MachineDequeue, FirstsStorable, FirstsFit, AllInRange, Next;
    if && AllInRange(edges) && FirstsStorable(edges, pending, crossings)
       && (forall x :: x in pending ==> !x.Crossing?) && (forall x :: x in crossings ==> x.Crossing?)
    {
      DequeuesAgreeExactly(edges, pending, crossings);
    }
  }

  // cairo_bo_event_queue_t. `shapes` is what the edge pointers of events lead to.
  class BoEventQueue {
    const shapes: Edges
    var sorted: seq<Event>
    var nextIndex: nat
    var crossings: seq<Event>

    ghost predicate Valid()
      reads this
    {
      nextIndex <= |sorted| && AllRefer(shapes, sorted) && AllRefer(shapes, crossings)
    }

    ghost function Waiting(): seq<Event>
      reads this
      requires Valid()
    {
      sorted[nextIndex..]
    }

    // _cairo_bo_event_queue_init
    constructor (edges: seq<BoEdge>, shapes: Edges)
      requires EdgeArray(edges, shapes)
      modifies edges`middle
      ensures this.shapes == shapes && Valid()
      ensures Waiting() == Init(shapes).pending && crossings == []
      ensures forall i :: 0 <= i < |edges| ==> edges[i].middle == shapes[i].top
    {
      this.shapes := shapes;
      nextIndex, crossings, sorted := 0, [], [];
      new;
      var events := [];
      for i := 0 to |edges|
        invariant events == StartStops(i)
        invariant forall j :: 0 <= j < i ==> edges[j].middle == shapes[j].top
        invariant nextIndex == 0 && crossings == []
      {
        events := events + [Start(i), Stop(i)];
        edges[i].middle := edges[i].shape.top;
      }
      StartStopsRefer(shapes);
      sorted := Sort(shapes, events);
    }

    // _cairo_bo_event_dequeue
    method Dequeue() returns (d: Dequeued)
      requires Valid()
      modifies this`nextIndex
      ensures Valid() && d == Next(shapes, old(Waiting()), crossings)
      ensures Waiting() == if d.Pending? then old(Waiting())[1..] else old(Waiting())
      ensures MachinesIfFits(shapes, old(Waiting()), crossings, d)
    {
      hide MachinesIfFits;
      DequeuedIsMachines(shapes, Waiting(), crossings);
      if nextIndex == |sorted| {
        return if crossings == [] then Nothing else Queued(crossings[0]);
      }
      var startstop := sorted[nextIndex];
      if crossings == [] || CompareEvents(shapes, startstop, crossings[0]) <= 0 {
        nextIndex := nextIndex + 1;
        return Pending(startstop);
      }
      return Queued(crossings[0]);
    }

    // _cairo_bo_event_queue_delete: the event dequeued is the first of the queue.
    method Delete(ev: Event)
      requires Valid() && (ev.Crossing? ==> crossings != [] && crossings[0] == ev)
      modifies this`crossings
      ensures Valid() && crossings == if ev.Crossing? then old(crossings)[1..] else old(crossings)
    {
      if ev.Crossing? { crossings := crossings[1..]; }
    }

    // _cairo_bo_event_queue_insert_if_intersect_below_current_y
    method InsertIfIntersect(left: BoEdge?, right: BoEdge?, ghost edges: seq<BoEdge>, ghost l: Neighbour,
                             ghost r: Neighbour)
      requires Valid() && EdgeArray(edges, shapes) && KnownNeighbour(shapes, l) && KnownNeighbour(shapes, r)
      requires left == (if l.Present? then edges[l.id] else null)
      requires right == (if r.Present? then edges[r.id] else null)
      modifies this`crossings
      ensures Valid() && crossings == QueueMeeting(shapes, old(crossings), l, r)
    {
      if left == null || right == null { return; }
      if SlopeCompare(left.shape, right.shape) < 0 { return; }
      var m := EdgeIntersect(left.shape, right.shape);
      match m
      case ParallelLines =>
      case Apart =>
      case Meet(p) => crossings := EventQueue.Insert(shapes, crossings, Crossing(left.id, right.id, p));
    }
  }

  // The sweep line on the heap holds the edges at the positions of `line`, at row y.
  ghost predicate SweepHolds(edges: seq<BoEdge>, sweep: SweepLine, line: seq<nat>, y: int)
    reads sweep, sweep.edges`prev, sweep.edges`next, sweep.edges`elt, sweep.elts`edge, sweep.elts`next
  {
    sweep.Valid() && OnLine(sweep.edges, edges, line) && sweep.y == y
  }

  ghost predicate MiddlesHold(edges: seq<BoEdge>, middle: seq<Point>)
    reads edges`middle
  {
    |edges| == |middle| && forall i :: 0 <= i < |edges| ==> edges[i].middle == middle[i]
  }

  // The heap holds the state t of the sweep.
  ghost predicate Matches(edges: seq<BoEdge>, sweep: SweepLine, queue: BoEventQueue, t: State)
    reads sweep, sweep.edges`prev, sweep.edges`next, sweep.edges`elt, sweep.elts`edge, sweep.elts`next,
          queue, edges`middle
  {
    && WellFormed(queue.shapes, t)
    && SweepHolds(edges, sweep, t.line, t.y) && MiddlesHold(edges, t.middle)
    && queue.Valid() && queue.Waiting() == t.pending && queue.crossings == t.crossings
  }

  // The neighbours of position k of the line, as pointers.
  ghost predicate Pointed(edges: seq<BoEdge>, p: BoEdge?, n: Neighbour) {
    if n.Present? then n.id < |edges| && p == edges[n.id] else p == null
  }

  lemma Neighbours(edges: seq<BoEdge>, sweep: SweepLine, line: seq<nat>, y: int, k: nat)
    requires SweepHolds(edges, sweep, line, y) && k < |line|
    ensures line[k] < |edges|
    ensures Pointed(edges, edges[line[k]].prev, Member(line, k - 1))
    ensures Pointed(edges, edges[line[k]].next, Member(line, k + 1))
  {
    assert sweep.edges[k] == edges[line[k]];
    if k > 0 { assert sweep.edges[k - 1] == edges[line[k - 1]]; }
    if k + 1 < |line| { assert sweep.edges[k + 1] == edges[line[k + 1]]; }
  }

  lemma AroundInserted(line: seq<nat>, k: nat, e: nat)
    requires k <= |line|
    ensures |InsertAt(line, k, e)| == |line| + 1 && InsertAt(line, k, e)[k] == e
    ensures Member(InsertAt(line, k, e), k - 1) == Member(line, k - 1)
    ensures Member(InsertAt(line, k, e), k + 1) == Member(line, k)
  {
  }

  lemma InsertedOnLine(active: seq<BoEdge>, edges: seq<BoEdge>, line: seq<nat>, k: nat, e: nat)
    requires OnLine(active, edges, line) && k <= |line| && e < |edges|
    ensures OnLine(active[..k] + [edges[e]] + active[k..], edges, InsertAt(line, k, e))
  {
  }

  lemma DeletedOnLine(active: seq<BoEdge>, edges: seq<BoEdge>, line: seq<nat>, k: nat)
    requires OnLine(active, edges, line) && k < |line|
    ensures OnLine(active[..k] + active[k + 1..], edges, DeleteAt(line, k))
  {
  }

  lemma SwappedOnLine(active: seq<BoEdge>, edges: seq<BoEdge>, line: seq<nat>, k: nat)
    requires OnLine(active, edges, line) && k + 1 < |line|
    ensures OnLine(active[k := active[k + 1]][k + 1 := active[k]], edges, SwapAt(line, k))
  {
  }

  lemma NotActive(active: seq<BoEdge>, edges: seq<BoEdge>, shapes: Edges, line: seq<nat>, e: nat)
    requires EdgeArray(edges, shapes) && OnLine(active, edges, line) && e < |edges| && e !in line
    ensures edges[e] !in active && forall f :: f in active ==> f.id != e
  {
    forall f | f in active ensures f.id != e {
      var i :| 0 <= i < |active| && active[i] == f;
      assert line[i] in line;
    }
  }

  lemma LineInArray(active: seq<BoEdge>, edges: seq<BoEdge>, line: seq<nat>)
    requires OnLine(active, edges, line)
    ensures forall f :: f in active ==> f in edges
  {
  }

  lemma OneElementEach(sweep: SweepLine)
    requires sweep.Valid()
    ensures |sweep.elts| == |sweep.edges|
  {
  }

  lemma OldOrInserted<T>(s: seq<T>, k: nat, x: T)
    requires k <= |s|
    ensures var r := s[..k] + [x] + s[k..]; forall i :: 0 <= i < |r| ==> r[i] in s || r[i] == x
  {
  }

  method InsertEdge(edges: seq<BoEdge>, e: nat, sweep: SweepLine, ghost shapes: Edges, ghost t: State)
    returns (ghost k: nat)
    requires EdgeArray(edges, shapes) && WellFormed(shapes, t)
    requires SweepHolds(edges, sweep, t.line, t.y) && MiddlesHold(edges, t.middle)
    requires e < |edges| && e !in t.line
    modifies sweep, sweep.elts`next, edges`prev, edges`next, edges`elt
    ensures k <= |t.line| && InsertPosition(shapes, t, e, k)
    ensures SweepHolds(edges, sweep, InsertAt(t.line, k, e), t.y)
    ensures forall i :: 0 <= i < |sweep.elts| ==> sweep.elts[i] in old(sweep.elts) || fresh(sweep.elts[i])
  {
    hide CompareEdges, Linked, Chained, Distinct, Tied;
    NotActive(sweep.edges, edges, shapes, t.line, e);
    LineInArray(sweep.edges, edges, t.line);
    OneElementEach(sweep);
    ghost var active, oldElts := sweep.edges, sweep.elts;
    ghost var elt;
    k, elt := sweep.Insert(edges[e]);
    InsertedOnLine(active, edges, t.line, k, e);
    OldOrInserted(oldElts, k, elt);
    assert k > 0 ==> active[k - 1].View() == View(shapes, t, t.line[k - 1]);
    assert k < |t.line| ==> active[k].View() == View(shapes, t, t.line[k]);
  }

  // CAIRO_BO_EVENT_TYPE_START
  method StartEvent(edges: seq<BoEdge>, e: nat, sweep: SweepLine, queue: BoEventQueue, ghost t: State)
    returns (ghost k: nat)
    requires EdgeArray(edges, queue.shapes) && Matches(edges, sweep, queue, t)
    requires e < |edges| && e !in t.line
    modifies sweep, sweep.elts`next, queue`crossings, edges`prev, edges`next, edges`elt
    ensures InsertPosition(queue.shapes, t, e, k)
    ensures Matches(edges, sweep, queue, Started(queue.shapes, t, e, k))
    ensures forall i :: 0 <= i < |sweep.elts| ==> sweep.elts[i] in old(sweep.elts) || fresh(sweep.elts[i])
  {
    hide InsertPosition, QueueMeeting, SweepHolds, MiddlesHold, InsertAt;
    k := InsertEdge(edges, e, sweep, queue.shapes, t);
    AroundInserted(t.line, k, e);
    Neighbours(edges, sweep, InsertAt(t.line, k, e), t.y, k);
    var left, right := edges[e].prev, edges[e].next;
    queue.InsertIfIntersect(left, edges[e], edges, Member(t.line, k - 1), Present(e));
    queue.InsertIfIntersect(edges[e], right, edges, Present(e), Member(t.line, k));
  }

  method DeleteEdge(edges: seq<BoEdge>, e: nat, sweep: SweepLine, ghost line: seq<nat>, ghost y: int, ghost k: nat)
    requires SweepHolds(edges, sweep, line, y) && k < |line| && line[k] == e && e < |edges|
    modifies sweep`chain, sweep`head, sweep`tail, sweep`edges, sweep`elts, sweep.elts`next, edges`prev, edges`next
    ensures SweepHolds(edges, sweep, DeleteAt(line, k), y)
    ensures forall x :: x in sweep.elts ==> x in old(sweep.elts)
  {
    LineInArray(sweep.edges, edges, line);
    DeletedOnLine(sweep.edges, edges, line, k);
    hide Linked, Chained, Distinct, Tied;
    sweep.Delete(edges[e], k);
  }

  // CAIRO_BO_EVENT_TYPE_STOP, up to the end of its trapezoid
  method StopEvent(edges: seq<BoEdge>, e: nat, sweep: SweepLine, queue: BoEventQueue, ghost t: State, ghost k: nat)
    requires EdgeArray(edges, queue.shapes) && Matches(edges, sweep, queue, t)
    requires k < |t.line| && t.line[k] == e && e < |edges|
    modifies sweep`chain, sweep`head, sweep`tail, sweep`edges, sweep`elts, sweep.elts`next, queue`crossings,
             edges`prev, edges`next
    ensures Matches(edges, sweep, queue, Stopped(queue.shapes, t, k))
    ensures forall x :: x in sweep.elts ==> x in old(sweep.elts)
  {
    hide QueueMeeting, MiddlesHold, SweepHolds, DeleteAt;
    Neighbours(edges, sweep, t.line, t.y, k);
    var left, right := edges[e].prev, edges[e].next;
    DeleteEdge(edges, e, sweep, t.line, t.y, k);
    queue.InsertIfIntersect(left, right, edges, Member(t.line, k - 1), Member(t.line, k + 1));
  }

  method SwapEdges(edges: seq<BoEdge>, e1: nat, e2: nat, sweep: SweepLine, ghost line: seq<nat>, ghost y: int,
                   ghost k: nat)
    requires SweepHolds(edges, sweep, line, y) && k + 1 < |line| && line[k] == e1 && line[k + 1] == e2
    requires e1 < |edges| && e2 < |edges|
    modifies sweep`head, sweep`tail, sweep`edges, sweep.elts`edge, edges`prev, edges`next, edges`elt
    ensures SweepHolds(edges, sweep, SwapAt(line, k), y)
    ensures sweep.elts == old(sweep.elts)
  {
    LineInArray(sweep.edges, edges, line);
    SwappedOnLine(sweep.edges, edges, line, k);
    hide Linked, Chained, Distinct, Tied;
    sweep.Swap(edges[e1], edges[e2], k);
  }

  // The intersection point becomes the middle of both edges.
  method MoveMiddles(edges: seq<BoEdge>, e1: nat, e2: nat, p: Point, ghost shapes: Edges, ghost middle: seq<Point>)
    requires EdgeArray(edges, shapes) && MiddlesHold(edges, middle) && e1 < |edges| && e2 < |edges|
    modifies edges`middle
    ensures MiddlesHold(edges, middle[e1 := p][e2 := p])
  {
    edges[e1].middle := p;
    edges[e2].middle := p;
  }

  // CAIRO_BO_EVENT_TYPE_INTERSECTION, once its edges are known to be adjacent
  method CrossingEvent(edges: seq<BoEdge>, e1: nat, e2: nat, p: Point, sweep: SweepLine, queue: BoEventQueue,
                       ghost t: State, ghost k: nat)
    requires EdgeArray(edges, queue.shapes) && Matches(edges, sweep, queue, t)
    requires k + 1 < |t.line| && t.line[k] == e1 && t.line[k + 1] == e2 && e1 < |edges| && e2 < |edges|
    modifies sweep`head, sweep`tail, sweep`edges, sweep.elts`edge, queue`crossings,
             edges`prev, edges`next, edges`elt, edges`middle
    ensures Matches(edges, sweep, queue, Swapped(queue.shapes, t, k, p))
    ensures sweep.elts == old(sweep.elts)
  {
    hide QueueMeeting, MiddlesHold, SweepHolds, SwapAt;
    MoveMiddles(edges, e1, e2, p, queue.shapes, t.middle);
    Neighbours(edges, sweep, t.line, t.y, k);
    Neighbours(edges, sweep, t.line, t.y, k + 1);
    var left, right := edges[e1].prev, edges[e2].next;
    SwapEdges(edges, e1, e2, sweep, t.line, t.y, k);
    queue.InsertIfIntersect(left, edges[e2], edges, Member(t.line, k - 1), Present(e2));
    queue.InsertIfIntersect(edges[e1], right, edges, Present(e1), Member(t.line, k + 2));
  }

  // ---- One iteration ----

  ghost predicate TrapsHold(edges: seq<BoEdge>, shapes: Edges, traps: BoTraps, t: Traps)
    reads edges`deferred, traps
  {
    |edges| == |shapes| && KnownTraps(shapes, t) && Holds(edges, shapes, traps, t)
  }

  // The pass a change of row calls for.
  method PassIfNewRow(edges: seq<BoEdge>, sweep: SweepLine, y: int, rule: FillRule, traps: BoTraps,
                      ghost shapes: Edges, ghost line: seq<nat>, ghost top: int, ghost t: Traps)
    requires EdgeArray(edges, shapes) && SweepHolds(edges, sweep, line, top) && TrapsHold(edges, shapes, traps, t)
    requires KnownLine(shapes, line)
    modifies sweep`y, edges`deferred, traps
    ensures SweepHolds(edges, sweep, line, y)
    ensures TrapsHold(edges, shapes, traps, if y == top then t else Pass(shapes, rule, line, 0, 0, top, t))
  {
    hide Pass, Linked, Chained, Tied, Distinct, Holds;
    if y != sweep.y {
      ActiveEdgesToTraps(sweep, sweep.y, rule, traps, edges, shapes, line, t);
      sweep.y := y;
    }
  }

  // Takes the next event out of its queue.
  method TakeEvent(edges: seq<BoEdge>, sweep: SweepLine, queue: BoEventQueue, rule: FillRule, traps: BoTraps,
                   ghost f: Full)
    returns (d: Dequeued)
    requires EdgeArray(edges, queue.shapes) && Matches(edges, sweep, queue, f.core)
    requires TrapsHold(edges, queue.shapes, traps, f.traps)
    requires forall x :: x in f.core.pending ==> !x.Crossing?
    requires forall x :: x in f.core.crossings ==> x.Crossing?
    modifies sweep`y, queue`nextIndex, queue`crossings, edges`deferred, traps
    ensures WellFormedFull(queue.shapes, f) && d == NextEvent(queue.shapes, f.core)
    ensures d.Nothing? ==> Matches(edges, sweep, queue, f.core) && TrapsHold(edges, queue.shapes, traps, f.traps)
    ensures !d.Nothing? ==> Matches(edges, sweep, queue, Taken(queue.shapes, f.core))
    ensures !d.Nothing? ==> TrapsHold(edges, queue.shapes, traps, PassBefore(queue.shapes, rule, f).traps)
  {
    hide MachinesIfFits, Pass, CompareEvents, MiddlesHold, SweepHolds, Holds;
    d := queue.Dequeue();
    if !d.Nothing? {
      assert d.ev in if d.Pending? then f.core.pending else f.core.crossings;
      PassIfNewRow(edges, sweep, At(queue.shapes, d.ev).y, rule, traps,
                   queue.shapes, f.core.line, f.core.y, f.traps);
      queue.Delete(d.ev);
    }
  }

  // The pointer test for adjacency.
  lemma NextPointer(edges: seq<BoEdge>, sweep: SweepLine, queue: BoEventQueue, t: State, k: nat, e2: nat)
    requires EdgeArray(edges, queue.shapes) && Matches(edges, sweep, queue, t)
    requires k < |t.line| && e2 < |edges|
    ensures t.line[k] < |edges| && (edges[t.line[k]].next == edges[e2] <==> Adjacent(t.line, k, e2))
  {
    hide MiddlesHold, SweepHolds;
    Neighbours(edges, sweep, t.line, t.y, k);
  }

  // The edges an event names are where a legal step needs them.
  lemma EventOnLine(shapes: Edges, s: State, k: nat)
    requires Inv(shapes, s) && Legal(shapes, s, k)
    ensures Taken(shapes, s).line == s.line
    ensures match NextEvent(shapes, s).ev
      case Start(e) => e < |shapes| && e !in s.line
      case Stop(e) => e < |shapes| && k < |s.line| && s.line[k] == e
      case Crossing(e1, e2, p) => e1 < |shapes| && e2 < |shapes| && k < |s.line| && s.line[k] == e1
    ensures Apply(shapes, s, k).count > s.count <==>
      NextEvent(shapes, s).ev.Crossing? && Adjacent(s.line, k, NextEvent(shapes, s).ev.e2)
  {
    hide CompareEvents, Sorted, CompareEdges;
    TakenWaits(shapes, s);
  }

  // The switch on the event's type, for the sweep line and the queue.
  method HandleEvent(edges: seq<BoEdge>, ev: Event, sweep: SweepLine, queue: BoEventQueue, ghost s: State)
    returns (swapped: bool, ghost k: nat)
    requires EdgeArray(edges, queue.shapes) && Inv(queue.shapes, s)
    requires !NextEvent(queue.shapes, s).Nothing? && ev == NextEvent(queue.shapes, s).ev
    requires Matches(edges, sweep, queue, Taken(queue.shapes, s))
    modifies sweep, sweep.elts`next, sweep.elts`edge, queue`crossings,
             edges`prev, edges`next, edges`elt, edges`middle
    ensures Legal(queue.shapes, s, k) && Matches(edges, sweep, queue, Apply(queue.shapes, s, k))
    ensures swapped <==> Apply(queue.shapes, s, k).count > s.count
    ensures forall i :: 0 <= i < |sweep.elts| ==> sweep.elts[i] in old(sweep.elts) || fresh(sweep.elts[i])
  {
    k := NeverStuck(queue.shapes, s);
    ghost var t := Taken(queue.shapes, s);
    EventOnLine(queue.shapes, s, k);
    hide Inv, Matches, CompareEvents, InsertPosition;
    swapped := false;
    match ev
    case Start(e) =>
      k := StartEvent(edges, e, sweep, queue, t);
    case Stop(e) =>
      StopEvent(edges, e, sweep, queue, t, k);
    case Crossing(e1, e2, p) =>
      NextPointer(edges, sweep, queue, t, k, e2);
      if edges[e1].next == edges[e2] {
        CrossingEvent(edges, e1, e2, p, sweep, queue, t, k);
        swapped := true;
      }
  }

  // ---- The whole loop ----

  function Shapes(edges: seq<BoEdge>): Edges {
    seq(|edges|, i requires 0 <= i < |edges| => edges[i].shape)
  }

  // The end of the trapezoid of an edge that stops.
  method EndStopped(edges: seq<BoEdge>, ev: Event, traps: BoTraps, ghost shapes: Edges, ghost t: Traps)
    requires EdgeArray(edges, shapes) && Refers(shapes, ev) && TrapsHold(edges, shapes, traps, t)
    modifies edges`deferred, traps
    ensures KnownTraps(shapes, t)
    ensures TrapsHold(edges, shapes, traps,
                      if ev.Stop? then EndTrap(shapes, t, ev.edge, shapes[ev.edge].bottom.y) else t)
  {
    if ev.Stop? {
      var e := edges[ev.edge];
      EndEdgeTrap(e, e.shape.bottom.y, traps, edges, shapes, t);
    }
  }

  lemma ApplyFullParts(shapes: Edges, rule: FillRule, f: Full, k: nat)
    requires WellFormedFull(shapes, f) && Legal(shapes, f.core, k)
    ensures var ev, t := NextEvent(shapes, f.core).ev, PassBefore(shapes, rule, f).traps;
      var g := ApplyFull(shapes, rule, f, k);
      && Refers(shapes, ev) && g.core == Apply(shapes, f.core, k)
      && g.traps == if ev.Stop? then EndTrap(shapes, t, ev.edge, shapes[ev.edge].bottom.y) else t
  {
    hide PassBefore, Apply, EndTrap, CompareEvents, CompareEdges;
  }

  // The heap holds the state f of the sweep and its trapezoids.
  ghost predicate Carries(edges: seq<BoEdge>, shapes: Edges, sweep: SweepLine, queue: BoEventQueue, traps: BoTraps,
                          f: Full)
    reads sweep, sweep.edges`prev, sweep.edges`next, sweep.edges`elt, sweep.elts`edge, sweep.elts`next,
          queue, edges`middle, edges`deferred, traps
  {
    && queue.shapes == shapes && EdgeArray(edges, shapes)
    && Matches(edges, sweep, queue, f.core) && TrapsHold(edges, shapes, traps, f.traps)
  }

  // The event taken is carried out.
  method Process(edges: seq<BoEdge>, ev: Event, sweep: SweepLine, queue: BoEventQueue, rule: FillRule, traps: BoTraps,
                 ghost shapes: Edges, ghost f: Full)
    returns (swapped: bool, ghost k: nat)
    requires EdgeArray(edges, shapes) && queue.shapes == shapes && Inv(shapes, f.core) && WellFormedFull(shapes, f)
    requires !NextEvent(shapes, f.core).Nothing? && ev == NextEvent(shapes, f.core).ev
    requires Matches(edges, sweep, queue, Taken(shapes, f.core))
    requires TrapsHold(edges, shapes, traps, PassBefore(shapes, rule, f).traps)
    modifies sweep, sweep.elts`next, sweep.elts`edge, queue`crossings, edges, traps
    ensures Legal(shapes, f.core, k) && Carries(edges, shapes, sweep, queue, traps, ApplyFull(shapes, rule, f, k))
    ensures swapped <==> Apply(shapes, f.core, k).count > f.core.count
    ensures forall i :: 0 <= i < |sweep.elts| ==> sweep.elts[i] in old(sweep.elts) || fresh(sweep.elts[i])
  {
    hide Matches, TrapsHold, CompareEvents, CompareEdges, PassBefore, Inv, Legal, ApplyFull, Apply, EndTrap,
         Taken, EdgeArray;
    ghost var t := PassBefore(shapes, rule, f).traps;
    swapped, k := HandleEvent(edges, ev, sweep, queue, f.core);
    ApplyFullParts(shapes, rule, f, k);
    EndStopped(edges, ev, traps, shapes, t);
  }

  // One iteration: false when no event is left.
  method Iterate(edges: seq<BoEdge>, sweep: SweepLine, queue: BoEventQueue, rule: FillRule, traps: BoTraps,
                 ghost shapes: Edges, ghost f: Full)
    returns (more: bool, swapped: bool, ghost k: nat)
    requires Inv(shapes, f.core) && WellFormedFull(shapes, f) && Carries(edges, shapes, sweep, queue, traps, f)
    modifies sweep, sweep.elts`next, sweep.elts`edge, queue`nextIndex, queue`crossings, edges, traps
    ensures more <==> !NextEvent(shapes, f.core).Nothing?
    ensures !more ==> Carries(edges, shapes, sweep, queue, traps, f)
    ensures more ==>
              Legal(shapes, f.core, k) && Carries(edges, shapes, sweep, queue, traps, ApplyFull(shapes, rule, f, k))
    ensures more ==> (swapped <==> Apply(shapes, f.core, k).count > f.core.count)
    ensures forall i :: 0 <= i < |sweep.elts| ==> sweep.elts[i] in old(sweep.elts) || fresh(sweep.elts[i])
  {
    QueueKinds(shapes, f.core);
    assert Matches(edges, sweep, queue, f.core) && TrapsHold(edges, shapes, traps, f.traps);
    hide Matches, TrapsHold, CompareEvents, CompareEdges, PassBefore, Inv, Legal, ApplyFull, Apply, EndTrap,
         Taken, EdgeArray;
    swapped, k := false, 0;
    var d := TakeEvent(edges, sweep, queue, rule, traps, f);
    more := !d.Nothing?;
    if more {
      swapped, k := Process(edges, d.ev, sweep, queue, rule, traps, shapes, f);
    }
  }

  lemma QueueKinds(shapes: Edges, s: State)
    requires Inv(shapes, s)
    ensures forall x :: x in s.pending ==> !x.Crossing?
    ensures forall x :: x in s.crossings ==> x.Crossing?
  {
  }

  // A run that has come to f.
  ghost predicate RunsTo(shapes: Edges, rule: FillRule, run: seq<Full>, f: Full) {
    && RunFull(shapes, rule, run) && run[|run| - 1] == f
    && Inv(shapes, f.core) && Held(f) && WellFormedFull(shapes, f)
  }

  // A legal step extends a run by one state and leaves less to do.
  lemma Extends(shapes: Edges, rule: FillRule, run: seq<Full>, f: Full, k: nat)
    requires RunsTo(shapes, rule, run, f) && Legal(shapes, f.core, k)
    ensures WellFormedFull(shapes, f)
    ensures var g := ApplyFull(shapes, rule, f, k);
      && RunsTo(shapes, rule, run + [g], g)
      && g.core == Apply(shapes, f.core, k)
      && Remaining(shapes, g.core) < Remaining(shapes, f.core)
      && f.core.count <= g.core.count <= f.core.count + 1
  {
    hide Inv, Legal, ApplyFull, Held, Remaining;
    var g := ApplyFull(shapes, rule, f, k);
    ApplyFullCore(shapes, rule, f, k);
    StepKeepsInv(shapes, f.core, k);
    StepHeld(shapes, rule, f, k);
    RemainingFalls(shapes, f.core, k);
    SwappableShrinks(shapes, f.core, k);
    assert StepFull(shapes, rule, f, g);
  }

  // What the arrays hold when the sweep is over.
  ghost predicate Emptied(edges: seq<BoEdge>, shapes: Edges, traps: BoTraps, f: Full)
    reads edges`deferred, traps
  {
    && Done(f.core) && traps.Valid(shapes) && traps.strips == f.traps.out
    && forall i :: 0 <= i < |edges| ==> edges[i].deferred == Closed
  }

  // With no event left nothing is active and nothing deferred, so the loop that
  // closes what the list still holds has nothing to do.
  lemma Finished(edges: seq<BoEdge>, shapes: Edges, rule: FillRule, sweep: SweepLine, queue: BoEventQueue,
                 traps: BoTraps, run: seq<Full>, f: Full)
    requires RunsTo(shapes, rule, run, f) && NextEvent(shapes, f.core).Nothing?
    requires Carries(edges, shapes, sweep, queue, traps, f)
    ensures Emptied(edges, shapes, traps, f) && sweep.head == null
  {
    hide CompareEvents, Sorted, RunFull;
    DoneIsEmpty(shapes, f.core);
  }

  lemma Begins(edges: seq<BoEdge>, shapes: Edges, rule: FillRule, sweep: SweepLine, queue: BoEventQueue, traps: BoTraps)
    requires EdgeArray(edges, shapes) && ValidEdges(shapes) && queue.shapes == shapes && queue.Valid()
    requires sweep.Valid() && sweep.edges == [] && sweep.y == 0
    requires queue.Waiting() == Init(shapes).pending && queue.crossings == []
    requires forall i :: 0 <= i < |edges| ==> edges[i].deferred == Closed && edges[i].middle == shapes[i].top
    requires traps.Valid(shapes) && traps.strips == []
    ensures var f := InitFull(shapes);
      RunsTo(shapes, rule, [f], f) && Carries(edges, shapes, sweep, queue, traps, f) && f.core.count == 0
  {
    hide CompareEvents, Sorted, Sort;
    InitInv(shapes);
  }

  lemma Reached(shapes: Edges, rule: FillRule, run: seq<Full>, f: Full)
    requires RunsTo(shapes, rule, run, f)
    ensures Inv(shapes, f.core) && WellFormedFull(shapes, f)
  {
    hide Inv, WellFormedFull, RunFull;
  }

  // An iteration as a step of the run.
  method Advance(edges: seq<BoEdge>, sweep: SweepLine, queue: BoEventQueue, rule: FillRule, traps: BoTraps,
                 ghost shapes: Edges, ghost run: seq<Full>, ghost f: Full)
    returns (more: bool, swapped: bool, ghost g: Full)
    requires RunsTo(shapes, rule, run, f) && Carries(edges, shapes, sweep, queue, traps, f)
    modifies sweep, sweep.elts, queue, edges, traps
    ensures !more ==> Emptied(edges, shapes, traps, f)
    ensures more ==> RunsTo(shapes, rule, run + [g], g) && Carries(edges, shapes, sweep, queue, traps, g)
    ensures more ==> g.core.count == (if swapped then f.core.count + 1 else f.core.count)
    ensures more ==> Remaining(shapes, g.core) < Remaining(shapes, f.core)
    ensures forall i :: 0 <= i < |sweep.elts| ==> sweep.elts[i] in old(sweep.elts) || fresh(sweep.elts[i])
  {
    hide Carries, RunsTo, ApplyFull, Apply, CompareEvents, Legal, Remaining, Emptied, Inv;
    Reached(shapes, rule, run, f);
    ghost var k;
    more, swapped, k := Iterate(edges, sweep, queue, rule, traps, shapes, f);
    g := f;
    if more {
      g := ApplyFull(shapes, rule, f, k);
      Extends(shapes, rule, run, f, k);
    } else {
      Finished(edges, shapes, rule, sweep, queue, traps, run, f);
    }
  }

  // The loop of _cairo_bentley_ottmann_tessellate_bo_edges.
  method RunSweep(edges: seq<BoEdge>, sweep: SweepLine, queue: BoEventQueue, rule: FillRule, traps: BoTraps,
                  ghost shapes: Edges, ghost start: Full)
    returns (count: nat, ghost run: seq<Full>, ghost f: Full)
    requires RunsTo(shapes, rule, [start], start) && Carries(edges, shapes, sweep, queue, traps, start)
    requires start.core.count == 0 && sweep.elts == []
    modifies sweep, queue, edges, traps
    ensures RunsTo(shapes, rule, run, f) && Emptied(edges, shapes, traps, f) && count == f.core.count
  {
    hide Carries, RunsTo, Remaining, Emptied;
    count, run, f := 0, [start], start;
    var more := true;
    while more
      invariant forall i :: 0 <= i < |sweep.elts| ==> fresh(sweep.elts[i])
      invariant RunsTo(shapes, rule, run, f) && count == f.core.count
      invariant if more then Carries(edges, shapes, sweep, queue, traps, f) else Emptied(edges, shapes, traps, f)
      decreases more, Remaining(shapes, f.core)
    {
      var swapped;
      ghost var g;
      more, swapped, g := Advance(edges, sweep, queue, rule, traps, shapes, run, f);
      if more {
        run, f := run + [g], g;
        if swapped { count := count + 1; }
      }
    }
  }

  // _cairo_bentley_ottmann_tessellate_bo_edges: runs the sweep to its end and emits
  // the strips of that run.
  method Tessellate(edges: seq<BoEdge>, rule: FillRule, traps: BoTraps)
    returns (count: nat, ghost run: seq<Full>, ghost last: Full)
    requires EdgeArray(edges, Shapes(edges)) && ValidEdges(Shapes(edges))
    requires forall i :: 0 <= i < |edges| ==> edges[i].deferred == Closed
    requires traps.Valid(Shapes(edges)) && traps.strips == []
    modifies edges, traps
    ensures RunsTo(Shapes(edges), rule, run, last) && Emptied(edges, Shapes(edges), traps, last)
    ensures count == last.core.count
    ensures AllInRange(Shapes(edges)) && RunsFit(Shapes(edges)) ==> MachineRun(Shapes(edges), Cores(run))
  {
    var shapes := Shapes(edges);
    var queue := new BoEventQueue(edges, shapes);
    var sweep := new SweepLine();
    Begins(edges, shapes, rule, sweep, queue, traps);
    hide Carries, RunsTo, Emptied, EdgeArray, ValidEdges, InitFull, Init, AllInRange, RunsFit, MachineRun, RunFull;
    count, run, last := RunSweep(edges, sweep, queue, rule, traps, shapes, InitFull(shapes));
    if AllInRange(shapes) && RunsFit(shapes) { RunsToIsMachineRun(shapes, rule, run, last); }
  }

  lemma RunsToIsMachineRun(shapes: Edges, rule: FillRule, run: seq<Full>, last: Full)
    requires ValidEdges(shapes) && AllInRange(shapes) && RunsFit(shapes) && RunsTo(shapes, rule, run, last)
    ensures MachineRun(shapes, Cores(run))
  {
    FullRunIsMachineRun(shapes, rule, run);
  }
}
