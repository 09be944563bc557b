// The sweep with its events ordered as the machine orders them, by 32-bit differences,
// against the sweep in exact order (cairo-bentley-ottmann.c, lines 144-151, 445-540,
// 778-892 and 1378-1484).
module MachineOrder {
  import opened Arith
  import opened Geometry
  import opened Intersect
  import opened Events
  import opened EventQueue
  import opened Sweep
  import opened Order
  import opened SweepOrder
  import opened RowZero
  import opened Trapezoids
  import opened Machine
  import opened MachineSweep

  // ---- When the machine's order of two events is the exact one ----

  // A point as the tessellator stores it: on a row of the grid, in a 32-bit column.
  predicate Storable(p: Point) {
    0 <= p.y < TWO31 && -TWO31 <= p.x < TWO31
  }

  // On one row, the difference of the columns fits 32 bits.
  predicate PointsFit(p: Point, q: Point) {
    p.y != q.y || -TWO31 <= p.x - q.x < TWO31
  }

  // Any two storable events are ordered by the machine as they should be if and only if
  // they are on different rows or the difference of their columns fits 32 bits.
  lemma SameOrderExactly(edges: Edges, a: Event, b: Event)
    requires AllInRange(edges) && Refers(edges, a) && Refers(edges, b)
    requires Storable(At(edges, a)) && Storable(At(edges, b))
    ensures Sign(MachineCompareEvents(edges, a, b)) == Sign(CompareEvents(edges, a, b)) <==>
              PointsFit(At(edges, a), At(edges, b))
  {
    hide MachineComparePoints, MachineSlopeCompare, SlopeCompare, MachineCompareOpposite, CompareOpposite;
    var p, q := At(edges, a), At(edges, b);
    ComparePointsFitsExactly(p, q);
    ZeroOnlyForEqual(p, q);
    SlopeCompareFits(edges[FirstEdge(a)], edges[FirstEdge(b)]);
    if CompareKinds(a, b) == 0 { CompareOppositeFits(edges, a, b); }
  }

  lemma ZeroOnlyForEqual(p: Point, q: Point)
    requires Storable(p) && Storable(q)
    ensures MachineComparePoints(p, q) == 0 <==> p == q
  {
    Delta(p.y, q.y);
    WrapsToward(p.x - q.x);
    hide Wrap;
  }

  // What is reported can be stored.
  lemma ReportedIsStorable(a: Edge, b: Edge)
    requires Downward(a) && Downward(b) && InRange(a) && InRange(b) && MeetingBelow(a, b).Meet?
    ensures Storable(MeetingBelow(a, b).at)
  {
    hide EdgeIntersect, Slope, CrossX, CrossY, CrossInside, SlopeCompare, SeenInside, Truncated;
    MeetsIffSeenInside(a, b);
    ReportedPointInGrid(a, b);
    ToInt32Is32(Truncated(CrossX(a, b)));
    hide ToInt32;
  }

  lemma ToInt32Is32(v: int)
    ensures -TWO31 <= ToInt32(v) < TWO31
  {
  }

  // A queued crossing is before the stop of either of its edges in exact order. In the
  // machine's it is if and only if it is on another row or the columns fit.
  lemma CrossingBeforeStopsExactly(edges: Edges, s: State, c: Event, e: nat)
    requires ValidEdges(edges) && AllInRange(edges) && SoundCrossing(edges, s, c) && (e == c.e1 || e == c.e2)
    ensures CompareEvents(edges, c, Stop(e)) < 0
    ensures MachineCompareEvents(edges, c, Stop(e)) < 0 <==>
              c.at.y != edges[e].bottom.y || c.at.x - edges[e].bottom.x >= -TWO31
  {
    hide MachineCompareEvents, CompareEvents, MeetingBelow;
    CrossingBeforeStops(edges, s, c);
    ReportedIsStorable(edges[c.e1], edges[c.e2]);
    SameOrderExactly(edges, c, Stop(e));
  }

  // ---- The sweep in the machine's order ----

  // _cairo_bo_event_dequeue
  function MachineDequeue(edges: Edges, pending: seq<Event>, crossings: seq<Event>): Dequeued
    requires AllRefer(edges, pending) && AllRefer(edges, crossings)
  {
    if pending == [] then (if crossings == [] then Nothing else Queued(crossings[0]))
    else if crossings == [] || MachineCompareEvents(edges, pending[0], crossings[0]) <= 0 then Pending(pending[0])
    else Queued(crossings[0])
  }

  predicate FirstsFit(edges: Edges, pending: seq<Event>, crossings: seq<Event>)
    requires AllRefer(edges, pending) && AllRefer(edges, crossings)
  {
    pending != [] && crossings != [] ==> PointsFit(At(edges, pending[0]), At(edges, crossings[0]))
  }

  predicate FirstsStorable(edges: Edges, pending: seq<Event>, crossings: seq<Event>)
    requires AllRefer(edges, pending) && AllRefer(edges, crossings)
  {
    pending != [] && crossings != [] ==> Storable(At(edges, pending[0])) && Storable(At(edges, crossings[0]))
  }

  // The machine dequeues the event it should if and only if the first ones fit.
  lemma DequeuesAgreeExactly(edges: Edges, pending: seq<Event>, crossings: seq<Event>)
    requires AllInRange(edges) && AllRefer(edges, pending) && AllRefer(edges, crossings)
    requires FirstsStorable(edges, pending, crossings)
    requires forall x :: x in pending ==> !x.Crossing?
    requires forall x :: x in crossings ==> x.Crossing?
    ensures MachineDequeue(edges, pending, crossings) == Next(edges, pending, crossings) <==>
              FirstsFit(edges, pending, crossings)
  {
    hide MachineCompareEvents, CompareEvents;
    if pending != [] && crossings != [] {
      var e, c := pending[0], crossings[0];
      assert e in pending && c in crossings;
      SameOrderExactly(edges, e, c);
      if !PointsFit(At(edges, e), At(edges, c)) { MisfitIsNotZero(edges, e, c); }
    }
  }

  lemma MisfitIsNotZero(edges: Edges, a: Event, b: Event)
    requires Refers(edges, a) && Refers(edges, b) && Storable(At(edges, a)) && Storable(At(edges, b))
    requires At(edges, a) != At(edges, b)
    ensures MachineCompareEvents(edges, a, b) != 0 && CompareEvents(edges, a, b) != 0
  {
    hide MachineComparePoints;
    ZeroOnlyForEqual(At(edges, a), At(edges, b));
  }

  function MachineNext(edges: Edges, s: State): Dequeued
    requires WellFormed(edges, s)
  {
    MachineDequeue(edges, s.pending, s.crossings)
  }

  // A place that the search of the skip list can end at.
  predicate MachinePlace(edges: Edges, q: seq<Event>, ev: Event, k: nat)
    requires AllRefer(edges, q) && Refers(edges, ev)
  {
    && k <= |q|
    && (k > 0 ==> MachineCompareEvents(edges, q[k - 1], ev) < 0)
    && (k < |q| ==> MachineCompareEvents(edges, q[k], ev) > 0)
  }

  // _cairo_skip_list_insert with unique set: nothing is added beside an event that
  // compares equal, or the new one goes to some place the search can end at.
  ghost predicate MachineInserted(edges: Edges, q: seq<Event>, ev: Event, r: seq<Event>)
    requires AllRefer(edges, q) && Refers(edges, ev)
  {
    || (r == q && exists k :: 0 <= k < |q| && MachineCompareEvents(edges, q[k], ev) == 0)
    || exists k: nat :: MachinePlace(edges, q, ev, k) && r == q[..k] + [ev] + q[k..]
  }

  // _cairo_bo_event_queue_insert_if_intersect_below_current_y
  ghost predicate MachineQueued(edges: Edges, q: seq<Event>, left: Neighbour, right: Neighbour, r: seq<Event>)
    requires AllRefer(edges, q) && KnownNeighbour(edges, left) && KnownNeighbour(edges, right)
  {
    if left.Absent? || right.Absent? then r == q
    else
      match MeetingBelow(edges[left.id], edges[right.id])
      case Meet(p) => MachineInserted(edges, q, Crossing(left.id, right.id, p), r)
      case _ => r == q
  }

  ghost predicate MachineQueuedTwice(edges: Edges, q: seq<Event>, a: Neighbour, b: Neighbour,
                                     c: Neighbour, d: Neighbour, r: seq<Event>)
    requires AllRefer(edges, q) && KnownNeighbour(edges, a) && KnownNeighbour(edges, b)
    requires KnownNeighbour(edges, c) && KnownNeighbour(edges, d)
  {
    exists m :: AllRefer(edges, m) && MachineQueued(edges, q, a, b, m) && MachineQueued(edges, m, c, d, r)
  }

  // The state once the event dequeued has been removed and its row made current.
  function TakenAs(edges: Edges, s: State, d: Dequeued): (t: State)
    requires WellFormed(edges, s) && d == MachineNext(edges, s) && !d.Nothing?
    ensures WellFormed(edges, t)
  {
    var y := At(edges, d.ev).y;
    if d.Pending? then s.(pending := s.pending[1..], y := y)
    else s.(crossings := s.crossings[1..], y := y)
  }

  predicate MachineInsertPosition(edges: Edges, s: State, e: nat, k: nat)
    requires WellFormed(edges, s) && e < |edges|
  {
    && k <= |s.line|
    && (k > 0 ==> MachineCompareEdges(View(edges, s, s.line[k - 1]), View(edges, s, e), s.y) < 0)
    && (k < |s.line| ==> MachineCompareEdges(View(edges, s, s.line[k]), View(edges, s, e), s.y) > 0)
  }

  ghost predicate MachineStarted(edges: Edges, t: State, e: nat, k: nat, r: State)
    requires WellFormed(edges, t) && e < |edges| && k <= |t.line|
  {
    && r == t.(line := InsertAt(t.line, k, e), crossings := r.crossings)
    && MachineQueuedTwice(edges, t.crossings, Member(t.line, k - 1), Present(e),
                          Present(e), Member(t.line, k), r.crossings)
  }

  ghost predicate MachineStopped(edges: Edges, t: State, k: nat, r: State)
    requires WellFormed(edges, t) && k < |t.line|
  {
    && r == t.(line := DeleteAt(t.line, k), crossings := r.crossings)
    && MachineQueued(edges, t.crossings, Member(t.line, k - 1), Member(t.line, k + 1), r.crossings)
  }

  ghost predicate MachineSwapped(edges: Edges, t: State, k: nat, p: Point, r: State)
    requires WellFormed(edges, t) && k + 1 < |t.line|
  {
    var e1, e2 := t.line[k], t.line[k + 1];
    && r == t.(line := SwapAt(t.line, k), middle := t.middle[e1 := p][e2 := p], count := t.count + 1,
               crossings := r.crossings)
    && MachineQueuedTwice(edges, t.crossings, Member(t.line, k - 1), Present(e2),
                          Present(e1), Member(t.line, k + 2), r.crossings)
  }

  // One iteration, at position k of the list; as in Sweep.Legal, an event of an edge that
  // is not on the list has none.
  ghost predicate MachineStepAt(edges: Edges, s: State, k: nat, r: State)
    requires WellFormed(edges, s)
  {
    var d := MachineNext(edges, s);
    && !d.Nothing?
    && var t := TakenAs(edges, s, d);
      match d.ev
      case Start(e) => e !in s.line && MachineInsertPosition(edges, t, e, k) && MachineStarted(edges, t, e, k, r)
      case Stop(e) => k < |s.line| && s.line[k] == e && MachineStopped(edges, t, k, r)
      case Crossing(e1, e2, p) =>
        && k < |s.line| && s.line[k] == e1 && e2 in s.line
        && if Adjacent(t.line, k, e2) then MachineSwapped(edges, t, k, p, r) else r == t
  }

  ghost predicate MachineStep(edges: Edges, s: State, r: State) {
    WellFormed(edges, s) && exists k: nat :: MachineStepAt(edges, s, k, r)
  }

  ghost predicate MachineRun(edges: Edges, run: seq<State>) {
    && run != [] && run[0] == Init(edges)
    && forall i :: 0 < i < |run| ==> MachineStep(edges, run[i - 1], run[i])
  }

  // ---- Where both orders agree, both sweeps do the same ----

  ghost predicate QueueFits(edges: Edges, q: seq<Event>) {
    && AllRefer(edges, q)
    && (forall a :: a in q ==> Refers(edges, a) && Storable(At(edges, a)))
    && forall a, b :: a in q && b in q ==> PointsFit(At(edges, a), At(edges, b))
  }

  predicate HeadsFit(edges: Edges, s: State)
    requires WellFormed(edges, s)
  {
    FirstsFit(edges, s.pending, s.crossings)
  }

  lemma {:induction false} InsertHasPlace(edges: Edges, q: seq<Event>, ev: Event) returns (k: nat)
    requires ValidEdges(edges) && Sorted(edges, q) && Refers(edges, ev) && ev !in q
    ensures k <= |q| && Insert(edges, q, ev) == q[..k] + [ev] + q[k..]
    ensures k > 0 ==> CompareEvents(edges, q[k - 1], ev) < 0
    ensures k < |q| ==> CompareEvents(edges, q[k], ev) > 0
  {
    hide CompareEvents;
    if q == [] || CompareEvents(edges, q[0], ev) > 0 {
      k := 0;
    } else {
      CompareEventsTotal(edges, q[0], ev);
      NotInTail(edges, q);
      var j := InsertHasPlace(edges, q[1..], ev);
      k := j + 1;
      HeadJoins(q, ev, j);
    }
  }

  lemma AroundPlace(edges: Edges, q: seq<Event>, ev: Event, k: nat)
    requires ValidEdges(edges) && Sorted(edges, q) && Refers(edges, ev) && k <= |q|
    requires k > 0 ==> CompareEvents(edges, q[k - 1], ev) < 0
    requires k < |q| ==> CompareEvents(edges, q[k], ev) > 0
    ensures forall i :: 0 <= i < k ==> CompareEvents(edges, q[i], ev) < 0
    ensures forall i :: k <= i < |q| ==> CompareEvents(edges, ev, q[i]) < 0
  {
    hide CompareEvents;
    forall i | 0 <= i < k ensures CompareEvents(edges, q[i], ev) < 0 {
      if i < k - 1 { CompareEventsTransitive(edges, q[i], q[k - 1], ev); }
    }
    forall i | k <= i < |q| ensures CompareEvents(edges, ev, q[i]) < 0 {
      CompareEventsTotal(edges, ev, q[k]);
      if i > k { CompareEventsTransitive(edges, ev, q[k], q[i]); }
    }
  }

  lemma JoinedMembers(q: seq<Event>, ev: Event, k: nat)
    requires k <= |q|
    ensures forall x :: x in q[..k] + [ev] + q[k..] <==> x in q || x == ev
  {
    assert q == q[..k] + q[k..];
  }

  lemma HeadJoins(q: seq<Event>, ev: Event, j: nat)
    requires q != [] && j <= |q[1..]|
    ensures [q[0]] + (q[1..][..j] + [ev] + q[1..][j..]) == q[..j + 1] + [ev] + q[j + 1..]
  {
  }

  // An event between a lesser and a greater one stands in order.
  lemma PlacedIsInsert(edges: Edges, q: seq<Event>, ev: Event, k: nat)
    requires ValidEdges(edges) && Sorted(edges, q) && Refers(edges, ev) && k <= |q|
    requires k > 0 ==> CompareEvents(edges, q[k - 1], ev) < 0
    requires k < |q| ==> CompareEvents(edges, q[k], ev) > 0
    ensures q[..k] + [ev] + q[k..] == Insert(edges, q, ev)
  {
    hide CompareEvents, Insert, Sorted;
    AroundPlace(edges, q, ev, k);
    JoinedIsSorted(edges, q, ev, k);
    JoinedMembers(q, ev, k);
    SortedRefers(edges, q);
    InsertKeepsSorted(edges, q, ev);
    SortedIsUnique(edges, q[..k] + [ev] + q[k..], Insert(edges, q, ev));
  }

  lemma SortedRefers(edges: Edges, q: seq<Event>)
    requires Sorted(edges, q)
    ensures AllRefer(edges, q)
  {
  }

  lemma JoinedIsSorted(edges: Edges, q: seq<Event>, ev: Event, k: nat)
    requires ValidEdges(edges) && Sorted(edges, q) && Refers(edges, ev) && k <= |q|
    requires forall i :: 0 <= i < k ==> CompareEvents(edges, q[i], ev) < 0
    requires forall i :: k <= i < |q| ==> CompareEvents(edges, ev, q[i]) < 0
    ensures Sorted(edges, q[..k] + [ev] + q[k..])
  {
    hide CompareEvents;
    var r := q[..k] + [ev] + q[k..];
    forall i, j | 0 <= i < j < |r|
      ensures Refers(edges, r[i]) && Refers(edges, r[j]) && CompareEvents(edges, r[i], r[j]) < 0
    {
      var i', j' := if i < k then i else i - 1, if j < k then j else j - 1;
      assert i != k ==> r[i] == q[i'];
      assert j != k ==> r[j] == q[j'];
    }
  }

  lemma OrdersAlike(edges: Edges, q: seq<Event>, ev: Event, k: nat)
    requires ValidEdges(edges) && AllInRange(edges) && Sorted(edges, q) && Refers(edges, ev) && k < |q|
    requires QueueFits(edges, Insert(edges, q, ev))
    ensures Sign(MachineCompareEvents(edges, q[k], ev)) == Sign(CompareEvents(edges, q[k], ev))
    ensures CompareEvents(edges, q[k], ev) == 0 <==> q[k] == ev
  {
    hide CompareEvents, MachineCompareEvents, Insert, PointsFit, Storable;
    InsertKeepsSorted(edges, q, ev);
    assert q[k] in q;
    SameOrderExactly(edges, q[k], ev);
    CompareEventsTotal(edges, q[k], ev);
  }

  lemma InsertAgrees(edges: Edges, q: seq<Event>, ev: Event, r: seq<Event>)
    requires ValidEdges(edges) && AllInRange(edges) && Sorted(edges, q) && Refers(edges, ev)
    requires QueueFits(edges, Insert(edges, q, ev))
    ensures MachineInserted(edges, q, ev, r) <==> r == Insert(edges, q, ev)
  {
    hide CompareEvents, MachineCompareEvents, Insert, QueueFits, Sorted;
    SortedRefers(edges, q);
    if MachineInserted(edges, q, ev, r) { InsertedIsInsert(edges, q, ev, r); }
    if r == Insert(edges, q, ev) { InsertIsInserted(edges, q, ev); }
  }

  lemma InsertedIsInsert(edges: Edges, q: seq<Event>, ev: Event, r: seq<Event>)
    requires ValidEdges(edges) && AllInRange(edges) && Sorted(edges, q) && Refers(edges, ev)
    requires QueueFits(edges, Insert(edges, q, ev)) && MachineInserted(edges, q, ev, r)
    ensures r == Insert(edges, q, ev)
  {
    hide CompareEvents, MachineCompareEvents, Insert, QueueFits, Sorted;
    SortedRefers(edges, q);
    if k :| 0 <= k < |q| && MachineCompareEvents(edges, q[k], ev) == 0 && r == q {
      OrdersAlike(edges, q, ev, k);
      InsertKeepsSorted(edges, q, ev);
    } else {
      var k: nat :| MachinePlace(edges, q, ev, k) && r == q[..k] + [ev] + q[k..];
      if k > 0 { OrdersAlike(edges, q, ev, k - 1); }
      if k < |q| { OrdersAlike(edges, q, ev, k); }
      PlacedIsInsert(edges, q, ev, k);
    }
  }

  lemma InsertIsInserted(edges: Edges, q: seq<Event>, ev: Event)
    requires ValidEdges(edges) && AllInRange(edges) && Sorted(edges, q) && Refers(edges, ev)
    requires QueueFits(edges, Insert(edges, q, ev))
    ensures MachineInserted(edges, q, ev, Insert(edges, q, ev))
  {
    hide CompareEvents, MachineCompareEvents, Insert, QueueFits, Sorted;
    SortedRefers(edges, q);
    if ev in q {
      var k :| 0 <= k < |q| && q[k] == ev;
      OrdersAlike(edges, q, ev, k);
      InsertKeepsSorted(edges, q, ev);
    } else {
      var k := InsertHasPlace(edges, q, ev);
      if k > 0 { OrdersAlike(edges, q, ev, k - 1); }
      if k < |q| { OrdersAlike(edges, q, ev, k); }
      assert MachinePlace(edges, q, ev, k);
    }
  }

  lemma QueuedAgrees(edges: Edges, q: seq<Event>, left: Neighbour, right: Neighbour, r: seq<Event>)
    requires ValidEdges(edges) && AllInRange(edges) && Sorted(edges, q)
    requires KnownNeighbour(edges, left) && KnownNeighbour(edges, right)
    requires QueueFits(edges, QueueMeeting(edges, q, left, right))
    ensures MachineQueued(edges, q, left, right, r) <==> r == QueueMeeting(edges, q, left, right)
  {
    hide MeetingBelow, MachineInserted, Insert, QueueFits, Sorted;
    SortedRefers(edges, q);
    if left.Present? && right.Present? && MeetingBelow(edges[left.id], edges[right.id]).Meet? {
      InsertAgrees(edges, q, Crossing(left.id, right.id, MeetingBelow(edges[left.id], edges[right.id]).at), r);
    }
  }

  lemma PartFits(edges: Edges, part: seq<Event>, q: seq<Event>)
    requires QueueFits(edges, q) && forall x :: x in part ==> x in q
    ensures QueueFits(edges, part)
  {
    hide PointsFit, Storable;
    forall i | 0 <= i < |part| ensures Refers(edges, part[i]) { assert part[i] in part; }
  }

  lemma QueuedTwiceAgrees(edges: Edges, q: seq<Event>, a: Neighbour, b: Neighbour,
                          c: Neighbour, d: Neighbour, r: seq<Event>)
    requires ValidEdges(edges) && AllInRange(edges) && Sorted(edges, q)
    requires KnownNeighbour(edges, a) && KnownNeighbour(edges, b)
    requires KnownNeighbour(edges, c) && KnownNeighbour(edges, d)
    requires QueueFits(edges, QueueMeeting(edges, QueueMeeting(edges, q, a, b), c, d))
    ensures MachineQueuedTwice(edges, q, a, b, c, d, r) <==>
              r == QueueMeeting(edges, QueueMeeting(edges, q, a, b), c, d)
  {
    hide MachineQueued, QueueMeeting, QueueFits, Sorted, MeetingBelow;
    SortedRefers(edges, q);
    var m := QueueMeeting(edges, q, a, b);
    QueueMeetingSound(edges, q, a, b);
    QueueMeetingSound(edges, m, c, d);
    PartFits(edges, m, QueueMeeting(edges, m, c, d));
    QueuedAgrees(edges, q, a, b, m);
    QueuedAgrees(edges, m, c, d, r);
    if MachineQueuedTwice(edges, q, a, b, c, d, r) {
      var n :| AllRefer(edges, n) && MachineQueued(edges, q, a, b, n) && MachineQueued(edges, n, c, d, r);
      QueuedAgrees(edges, q, a, b, n);
    }
  }

  lemma NextAgrees(edges: Edges, s: State)
    requires Inv(edges, s) && AllInRange(edges) && HeadsFit(edges, s)
    ensures MachineNext(edges, s) == NextEvent(edges, s)
    ensures !NextEvent(edges, s).Nothing? ==> TakenAs(edges, s, MachineNext(edges, s)) == Taken(edges, s)
  {
    hide CompareEvents, MachineCompareEvents, MeetingBelow, Sorted, MachineDequeue, Next;
    if s.pending != [] && s.crossings != [] {
      var e, c := s.pending[0], s.crossings[0];
      assert e in s.pending && c in s.crossings && SoundCrossing(edges, s, c);
      ReportedIsStorable(edges[c.e1], edges[c.e2]);
    }
    DequeuesAgreeExactly(edges, s.pending, s.crossings);
  }

  lemma PositionsAgree(edges: Edges, s: State, e: nat, k: nat)
    requires WellFormed(edges, s) && AllInRange(edges) && e < |edges| && s.y == edges[e].top.y
    ensures MachineInsertPosition(edges, s, e, k) <==> InsertPosition(edges, s, e, k)
  {
    hide CompareEdges, MachineCompareEdges;
    if 0 < k <= |s.line| { CompareEdgesFits(View(edges, s, s.line[k - 1]), View(edges, s, e), s.y); }
    if k < |s.line| { CompareEdgesFits(View(edges, s, s.line[k]), View(edges, s, e), s.y); }
  }

  lemma StepsAgree(edges: Edges, s: State, k: nat, r: State)
    requires Inv(edges, s) && AllInRange(edges) && HeadsFit(edges, s)
    requires Legal(edges, s, k) ==> QueueFits(edges, Apply(edges, s, k).crossings)
    ensures MachineStepAt(edges, s, k, r) <==> Legal(edges, s, k) && r == Apply(edges, s, k)
  {
    hide InsertPosition, MachineInsertPosition, MachineQueuedTwice, MachineQueued, QueueMeeting, QueueFits, Sorted,
         CompareEvents, MachineCompareEvents, MeetingBelow, Lifetimes, HeadsFit, MachineNext, NextEvent, AllInRange;
    NextAgrees(edges, s);
    if !NextEvent(edges, s).Nothing? {
      var t := Taken(edges, s);
      TakenWaits(edges, s);
      match NextEvent(edges, s).ev
      case Start(e) =>
        PositionsAgree(edges, t, e, k);
        if Legal(edges, s, k) {
          QueuedTwiceAgrees(edges, t.crossings, Member(t.line, k - 1), Present(e),
                            Present(e), Member(t.line, k), r.crossings);
        }
      case Stop(e) =>
        if Legal(edges, s, k) {
          QueuedAgrees(edges, t.crossings, Member(t.line, k - 1), Member(t.line, k + 1), r.crossings);
        }
      case Crossing(e1, e2, p) =>
        if Legal(edges, s, k) && Adjacent(t.line, k, e2) {
          QueuedTwiceAgrees(edges, t.crossings, Member(t.line, k - 1), Present(e2),
                            Present(e1), Member(t.line, k + 2), r.crossings);
        }
    }
  }

  // ---- Runs ----

  // Whatever an iteration at this state compares, the machine orders as it should.
  ghost predicate StepFits(edges: Edges, s: State) {
    && WellFormed(edges, s) && HeadsFit(edges, s)
    && forall k :: Legal(edges, s, k) ==> QueueFits(edges, Apply(edges, s, k).crossings)
  }

  lemma StepFitsHere(edges: Edges, s: State, r: State)
    requires Inv(edges, s) && AllInRange(edges) && HeadsFit(edges, s)
    requires Step(edges, s, r) && QueueFits(edges, r.crossings)
    ensures MachineStep(edges, s, r)
  {
    hide Inv, Legal, Apply, MachineStepAt, QueueFits, AllInRange, HeadsFit;
    var k := Choice(edges, s, r);
    StepsAgree(edges, s, k, r);
  }

  // Any two waiting events are on different rows, or their columns fit.
  ghost predicate WaitingFit(edges: Edges, s: State) {
    && WellFormed(edges, s)
    && forall a, b :: Waiting(s, a) && Waiting(s, b) ==>
         Refers(edges, a) && Refers(edges, b) && PointsFit(At(edges, a), At(edges, b))
  }

  // They do in every state the sweep can reach.
  ghost predicate RunsFit(edges: Edges) {
    forall run: seq<State> :: Run(edges, run) ==> WaitingFit(edges, run[|run| - 1])
  }

  lemma MachineStepIsStep(edges: Edges, s: State, r: State)
    requires Inv(edges, s) && AllInRange(edges) && StepFits(edges, s)
    ensures MachineStep(edges, s, r) <==> Step(edges, s, r)
  {
    hide Inv, Legal, Apply, MachineStepAt, QueueFits, AllInRange, HeadsFit;
    forall k: nat ensures MachineStepAt(edges, s, k, r) <==> Legal(edges, s, k) && r == Apply(edges, s, k) {
      StepsAgree(edges, s, k, r);
    }
  }

  lemma QueueStorable(edges: Edges, s: State)
    requires Inv(edges, s) && AllInRange(edges) && WaitingFit(edges, s)
    ensures QueueFits(edges, s.crossings)
  {
    hide MeetingBelow, PointsFit, Storable, Sorted, Lifetimes, AllInRange;
    forall a | a in s.crossings ensures Refers(edges, a) && Storable(At(edges, a)) {
      assert SoundCrossing(edges, s, a) && Waiting(s, a);
      assert InRange(edges[a.e1]) && InRange(edges[a.e2]) by { BothInRange(edges, a.e1, a.e2); }
      ReportedIsStorable(edges[a.e1], edges[a.e2]);
    }
    forall a, b | a in s.crossings && b in s.crossings ensures PointsFit(At(edges, a), At(edges, b)) {
      assert Waiting(s, a) && Waiting(s, b);
    }
  }

  lemma BothInRange(edges: Edges, a: nat, b: nat)
    requires AllInRange(edges) && a < |edges| && b < |edges|
    ensures InRange(edges[a]) && InRange(edges[b])
  {
  }

  lemma StepOf(edges: Edges, s: State, k: nat)
    requires WellFormed(edges, s) && Legal(edges, s, k)
    ensures Step(edges, s, Apply(edges, s, k))
  {
    hide Legal, Apply;
  }

  lemma ReachedFits(edges: Edges, run: seq<State>)
    requires ValidEdges(edges) && AllInRange(edges) && RunsFit(edges) && Run(edges, run)
    ensures StepFits(edges, run[|run| - 1])
  {
    hide Step, Legal, Apply, Inv, PointsFit, QueueFits, AllInRange, Init;
    var s := run[|run| - 1];
    ReachableInv(edges, run, |run| - 1);
    assert WaitingFit(edges, s);
    if s.pending != [] && s.crossings != [] {
      assert Waiting(s, s.pending[0]) && Waiting(s, s.crossings[0]);
    }
    forall k | Legal(edges, s, k) ensures QueueFits(edges, Apply(edges, s, k).crossings) {
      var longer := run + [Apply(edges, s, k)];
      assert longer[..|run|] == run;
      StepOf(edges, s, k);
      RunIsPrefixAndStep(edges, longer);
      ReachableInv(edges, longer, |run|);
      QueueStorable(edges, longer[|run|]);
    }
  }

  lemma {:induction false} RunsAgree(edges: Edges, run: seq<State>)
    requires ValidEdges(edges) && AllInRange(edges) && RunsFit(edges)
    ensures MachineRun(edges, run) <==> Run(edges, run)
    decreases |run|
  {
    hide Inv, Step, MachineStep, StepFits, AllInRange, RunsFit, Init;
    if |run| > 1 {
      var n := |run| - 1;
      RunsAgree(edges, run[..n]);
      if Run(edges, run[..n]) {
        ReachableInv(edges, run[..n], n - 1);
        ReachedFits(edges, run[..n]);
        MachineStepIsStep(edges, run[n - 1], run[n]);
      }
      RunIsPrefixAndStep(edges, run);
    }
  }

  lemma RunIsPrefixAndStep(edges: Edges, run: seq<State>)
    requires |run| > 1
    ensures var n := |run| - 1;
      && (Run(edges, run) <==> Run(edges, run[..n]) && Step(edges, run[n - 1], run[n]))
      && (MachineRun(edges, run) <==> MachineRun(edges, run[..n]) && MachineStep(edges, run[n - 1], run[n]))
  {
    hide Step, MachineStep, Init;
  }

  // ---- A condition on the edges ----

  // An end of an edge, or a crossing that a run may queue: one reported of two edges that
  // is a true crossing, or lies above row -2^31.
  ghost predicate CanWait(edges: Edges, ev: Event)
    requires ValidEdges(edges)
  {
    && Refers(edges, ev)
    && (ev.Crossing? ==> MeetingBelow(edges[ev.e1], edges[ev.e2]) == Meet(ev.at) && TrueOrFar(edges, ev))
  }

  ghost predicate RowsFit(edges: Edges)
    requires ValidEdges(edges)
  {
    forall a, b :: CanWait(edges, a) && CanWait(edges, b) ==> PointsFit(At(edges, a), At(edges, b))
  }

  // Which is exactly that the machine orders all those events as it should.
  lemma RowsFitExactly(edges: Edges)
    requires ValidEdges(edges) && AllInRange(edges)
    ensures RowsFit(edges) <==>
              forall a, b :: CanWait(edges, a) && CanWait(edges, b) ==>
                Sign(MachineCompareEvents(edges, a, b)) == Sign(CompareEvents(edges, a, b))
  {
    hide CanWait, CompareEvents, MachineCompareEvents, PointsFit, AllInRange;
    forall a, b | CanWait(edges, a) && CanWait(edges, b)
      ensures Refers(edges, a) && Refers(edges, b)
      ensures Sign(MachineCompareEvents(edges, a, b)) == Sign(CompareEvents(edges, a, b)) <==>
                PointsFit(At(edges, a), At(edges, b))
    {
      WaitsStorable(edges, a);
      WaitsStorable(edges, b);
      SameOrderExactly(edges, a, b);
    }
  }

  lemma WaitsStorable(edges: Edges, ev: Event)
    requires ValidEdges(edges) && AllInRange(edges) && CanWait(edges, ev)
    ensures Refers(edges, ev) && Storable(At(edges, ev))
  {
    hide MeetingBelow, TrueOrFar;
    if ev.Crossing? { ReportedIsStorable(edges[ev.e1], edges[ev.e2]); }
  }

  lemma WaitingCanWait(edges: Edges, run: seq<State>, i: nat, ev: Event)
    requires ValidEdges(edges) && AllInRange(edges) && Run(edges, run) && i < |run| && Waiting(run[i], ev)
    ensures CanWait(edges, ev)
  {
    hide Inv, MeetingBelow, TrueOrFar, RowZeroInv;
    QueuedAreTrueOrFar(edges, run, i);
    ReachableInv(edges, run, i);
    InvParts(edges, run[i]);
    WaitingRefers(edges, run[i], ev);
  }

  lemma WaitingRefers(edges: Edges, s: State, ev: Event)
    requires WellFormed(edges, s) && Lifetimes(edges, s) && Waiting(s, ev)
    requires forall c :: c in s.crossings ==> SoundCrossing(edges, s, c)
    ensures Refers(edges, ev) && (ev in s.pending ==> !ev.Crossing?)
    ensures ev in s.crossings ==> SoundCrossing(edges, s, ev)
  {
    hide MeetingBelow;
  }

  // In every reachable state, rounding or not, the machine orders two waiting events as it
  // should if and only if they are on different rows or their columns fit.
  lemma WaitingOrderExactly(edges: Edges, run: seq<State>, i: nat, a: Event, b: Event)
    requires ValidEdges(edges) && AllInRange(edges) && Run(edges, run) && i < |run|
    requires Waiting(run[i], a) && Waiting(run[i], b)
    ensures Refers(edges, a) && Refers(edges, b)
    ensures Sign(MachineCompareEvents(edges, a, b)) == Sign(CompareEvents(edges, a, b)) <==>
              PointsFit(At(edges, a), At(edges, b))
  {
    hide CanWait, CompareEvents, MachineCompareEvents, PointsFit, AllInRange, Run, Waiting;
    WaitingCanWait(edges, run, i, a);
    WaitingCanWait(edges, run, i, b);
    WaitsStorable(edges, a);
    WaitsStorable(edges, b);
    SameOrderExactly(edges, a, b);
  }

  lemma RowsFitSuffices(edges: Edges)
    requires ValidEdges(edges) && AllInRange(edges) && RowsFit(edges)
    ensures RunsFit(edges)
  {
    hide Step, PointsFit, CanWait, AllInRange, Init, Waiting;
    forall run: seq<State> | Run(edges, run) ensures WaitingFit(edges, run[|run| - 1]) {
      var s := run[|run| - 1];
      ReachableInv(edges, run, |run| - 1);
      assert WellFormed(edges, s) by { InvParts(edges, s); }
      forall a | Waiting(s, a) ensures CanWait(edges, a) && Refers(edges, a) {
        WaitingCanWait(edges, run, |run| - 1, a);
        WaitsStorable(edges, a);
      }
    }
  }

  // Crossings at integer points suffice too.
  lemma IntegerCrossingsSuffice(edges: Edges)
    requires ValidEdges(edges) && AllInRange(edges) && IntegerCrossings(edges)
    ensures RunsFit(edges)
  {
    hide Step, PointsFit, AllInRange, Init, Waiting, IntegerCrossings, OrderInv, FarOut;
    forall run: seq<State> | Run(edges, run) ensures WaitingFit(edges, run[|run| - 1]) {
      var s := run[|run| - 1];
      var p := ReachableOrder(edges, run, |run| - 1);
      assert WellFormed(edges, s) by { InvOf(edges, s, p); }
      forall a, b | Waiting(s, a) && Waiting(s, b)
        ensures Refers(edges, a) && Refers(edges, b) && PointsFit(At(edges, a), At(edges, b))
      {
        NothingLeavesTheGrid(edges, s, p, a, b);
        InGridFits(At(edges, a), At(edges, b));
      }
    }
  }

  lemma InGridFits(p: Point, q: Point)
    requires PointInRange(p) && PointInRange(q)
    ensures PointsFit(p, q)
  {
  }

  lemma {:induction false} ReachableOrder(edges: Edges, run: seq<State>, i: nat) returns (p: Pos)
    requires ValidEdges(edges) && AllInRange(edges) && IntegerCrossings(edges) && Run(edges, run) && i < |run|
    ensures OrderInv(edges, run[i], p)
  {
    hide OrderInv, AllInRange, IntegerCrossings, Legal, Apply;
    if i == 0 {
      InitOrderInv(edges);
      p := START;
    } else {
      var o := ReachableOrder(edges, run, i - 1);
      assert Step(edges, run[i - 1], run[i]);
      var k := Choice(edges, run[i - 1], run[i]);
      StepKeepsOrder(edges, run[i - 1], o, k);
      p := PosOf(At(edges, NextEvent(edges, run[i - 1]).ev));
    }
  }

  // On edges that a caller can tell to fit, the machine's sweep is the sweep in exact order.
  lemma MachineRunsAreRuns(edges: Edges, run: seq<State>)
    requires ValidEdges(edges) && AllInRange(edges) && (RowsFit(edges) || IntegerCrossings(edges))
    ensures MachineRun(edges, run) <==> Run(edges, run)
  {
    hide RowsFit, RunsFit, AllInRange, Run, MachineRun, IntegerCrossings;
    if RowsFit(edges) { RowsFitSuffices(edges); } else { IntegerCrossingsSuffice(edges); }
    RunsAgree(edges, run);
  }

  // So the theorems about runs hold of the machine's: it is safe, never stuck, bounded,
  // and leaves nothing active.
  lemma MachineSweepIsSafe(edges: Edges, run: seq<State>)
    requires ValidEdges(edges) && AllInRange(edges) && RunsFit(edges) && MachineRun(edges, run)
    ensures var s := run[|run| - 1];
      && Inv(edges, s)
      && (Done(s) ==> s.line == [])
      && (!Done(s) ==> exists r :: MachineStep(edges, s, r))
    ensures |run| - 1 <= |edges| * |edges| + 4 * |edges|
    ensures 2 * run[|run| - 1].count <= |edges| * (|edges| - 1)
  {
    hide Inv, Run, MachineRun, Legal, Apply, AllInRange, RunsFit, MachineStep, Step;
    RunsAgree(edges, run);
    assert run != [] by { RunIsNotEmpty(edges, run); }
    var s := run[|run| - 1];
    ReachableInv(edges, run, |run| - 1);
    RunIsBounded(edges, run);
    if Done(s) {
      DoneIsEmpty(edges, s);
    } else {
      var k := NeverStuck(edges, s);
      InvParts(edges, s);
      StepOf(edges, s, k);
      ReachedFits(edges, run);
      MachineStepIsStep(edges, s, Apply(edges, s, k));
    }
  }

  lemma RunIsNotEmpty(edges: Edges, run: seq<State>)
    requires Run(edges, run)
    ensures run != []
  {
    hide Step, Init;
  }

  // With its trapezoids too the loop is one of the machine's sweep.
  lemma FullRunIsMachineRun(edges: Edges, rule: FillRule, run: seq<Full>)
    requires ValidEdges(edges) && AllInRange(edges) && RunsFit(edges) && RunFull(edges, rule, run)
    ensures MachineRun(edges, Cores(run))
  {
    hide RunFull, Run, RunsFit, AllInRange, MachineRun;
    CoresRun(edges, rule, run);
    RunsAgree(edges, Cores(run));
  }
}
