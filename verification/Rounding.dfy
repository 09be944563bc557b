// Runs in which rounding shows: a wrong decision of the bounding boxes, a row that
// falls, and a crossing far above the grid that is taken for one in it
// (cairo-bentley-ottmann.c, lines 373-394, 638-653 and 1378-1484).
module Rounding {
  import opened Geometry
  import opened Intersect
  import opened Events
  import opened EventQueue
  import opened Sweep

  // ---- Playing a run step by step ----

  lemma {:induction false} AdjacentSorted(edges: Edges, q: seq<Event>)
    requires ValidEdges(edges) && AllRefer(edges, q)
    requires forall i :: 0 <= i && i + 1 < |q| ==> CompareEvents(edges, q[i], q[i + 1]) < 0
    ensures Sorted(edges, q)
  {
    hide CompareEvents;
    if |q| > 1 {
      AdjacentSorted(edges, q[1..]);
      forall j | 1 <= j < |q| ensures CompareEvents(edges, q[0], q[j]) < 0 {
        if j > 1 {
          assert CompareEvents(edges, q[1..][0], q[1..][j - 1]) < 0;
          CompareEventsTransitive(edges, q[0], q[1], q[j]);
        }
      }
      forall i, j | 1 <= i < j < |q| ensures CompareEvents(edges, q[i], q[j]) < 0 {
        assert CompareEvents(edges, q[1..][i - 1], q[1..][j - 1]) < 0;
      }
    }
  }

  // The sorted list of all starts and stops is what a run begins with.
  lemma BeginsWith(edges: Edges, q: seq<Event>)
    requires ValidEdges(edges) && Sorted(edges, q)
    requires forall x :: x in q <==> !x.Crossing? && x.edge < |edges|
    ensures Init(edges) == State([], q, [], Tops(edges), 0, 0)
  {
    hide CompareEvents;
    StartStopsRefer(edges);
    StartStopsMembers(|edges|);
    SortSorts(edges, StartStops(|edges|));
    SortedIsUnique(edges, Sort(edges, StartStops(|edges|)), q);
  }

  // The reports for the neighbours an edge gets, on an empty queue: at most one is a meeting.
  ghost predicate Queues(edges: Edges, a: Neighbour, b: Neighbour, c: Neighbour, d: Neighbour, q: seq<Event>)
    requires KnownNeighbour(edges, a) && KnownNeighbour(edges, b) && KnownNeighbour(edges, c)
    requires KnownNeighbour(edges, d)
  {
    QueueMeeting(edges, QueueMeeting(edges, [], a, b), c, d) == q
  }

  // The next event is a start, and the edge goes to position k.
  lemma PlayStart(edges: Edges, s: State, e: nat, k: nat, q: seq<Event>, r: State)
    requires WellFormed(edges, s) && s.pending != [] && s.pending[0] == Start(e) && s.crossings == []
    requires e < |edges| && e !in s.line && k <= |s.line|
    requires k > 0 ==> CompareEdges(View(edges, s, s.line[k - 1]), View(edges, s, e), edges[e].top.y) < 0
    requires k < |s.line| ==> CompareEdges(View(edges, s, s.line[k]), View(edges, s, e), edges[e].top.y) > 0
    requires Queues(edges, Member(s.line, k - 1), Present(e), Present(e), Member(s.line, k), q)
    requires r == State(InsertAt(s.line, k, e), s.pending[1..], q, s.middle, edges[e].top.y, s.count)
    ensures Step(edges, s, r) && NextEvent(edges, s) == Pending(Start(e))
  {
    hide CompareEdges, QueueMeeting;
    var t := Taken(edges, s);
    assert t == s.(pending := s.pending[1..], y := edges[e].top.y);
    assert InsertPosition(edges, t, e, k);
    assert Legal(edges, s, k);
    assert r == Apply(edges, s, k);
  }

  // The next event is the one queued intersection, and its edges are at k and k + 1.
  lemma PlayCrossing(edges: Edges, s: State, c: Event, k: nat, q: seq<Event>, r: State)
    requires WellFormed(edges, s) && s.crossings == [c] && c.Crossing?
    requires s.pending != [] && Refers(edges, s.pending[0]) && Refers(edges, c)
    requires CompareEvents(edges, s.pending[0], c) > 0
    requires k + 1 < |s.line| && s.line[k] == c.e1 && s.line[k + 1] == c.e2
    requires Queues(edges, Member(s.line, k - 1), Present(c.e2), Present(c.e1), Member(s.line, k + 2), q)
    requires r == State(SwapAt(s.line, k), s.pending, q, s.middle[c.e1 := c.at][c.e2 := c.at], c.at.y, s.count + 1)
    ensures Step(edges, s, r) && NextEvent(edges, s) == Queued(c)
  {
    hide CompareEvents, QueueMeeting;
    assert s.crossings[1..] == [];
    assert Legal(edges, s, k);
    assert r == Apply(edges, s, k);
  }

  lemma QueuesNothing(edges: Edges, a: Neighbour, b: Neighbour, c: Neighbour, d: Neighbour)
    requires KnownNeighbour(edges, a) && KnownNeighbour(edges, b) && KnownNeighbour(edges, c)
    requires KnownNeighbour(edges, d)
    requires a.Absent? || b.Absent? || !MeetingBelow(edges[a.id], edges[b.id]).Meet?
    requires c.Absent? || d.Absent? || !MeetingBelow(edges[c.id], edges[d.id]).Meet?
    ensures Queues(edges, a, b, c, d, [])
  {
    hide MeetingBelow;
  }

  lemma QueuesFirst(edges: Edges, a: nat, b: nat, c: Neighbour, d: Neighbour, p: Point)
    requires a < |edges| && b < |edges| && MeetingBelow(edges[a], edges[b]) == Meet(p)
    requires KnownNeighbour(edges, c) && KnownNeighbour(edges, d)
    requires c.Absent? || d.Absent? || !MeetingBelow(edges[c.id], edges[d.id]).Meet?
    ensures Queues(edges, Present(a), Present(b), c, d, [Crossing(a, b, p)])
  {
    hide MeetingBelow;
  }

  lemma QueuesSecond(edges: Edges, a: Neighbour, b: Neighbour, c: nat, d: nat, p: Point)
    requires c < |edges| && d < |edges| && MeetingBelow(edges[c], edges[d]) == Meet(p)
    requires KnownNeighbour(edges, a) && KnownNeighbour(edges, b)
    requires a.Absent? || b.Absent? || !MeetingBelow(edges[a.id], edges[b.id]).Meet?
    ensures Queues(edges, a, b, Present(c), Present(d), [Crossing(c, d, p)])
  {
    hide MeetingBelow;
  }

  // ---- The bounding boxes decide wrongly ----

  function Boxes(): Edges {
    [Edge(Point(25, 0), Point(25, 2), false),
     Edge(Point(100, 0), Point(0, 2), false),
     Edge(Point(30, 1), Point(30, 3), false)]
  }

  const BOXES_EVENTS: seq<Event> := [Start(0), Start(1), Start(2), Stop(1), Stop(0), Stop(2)]

  lemma BoxesMeet()
    ensures MeetingBelow(Boxes()[0], Boxes()[1]) == Meet(Point(25, 1))
  {
    hide EndDet, EdgeIntersect, NumeratorY, Denominator;
    var a, b := Boxes()[0], Boxes()[1];
    KnownEndDet(a, 50);
    KnownEndDet(b, 200);
    ReportedFrom(a, 0, 2, 50, b, -100, 2, 200, 5000, 300, 200, Ordinate(25, false), Ordinate(1, true));
  }

  function BoxesState(i: nat): State
    requires i < 4
  {
    var tops := [Point(25, 0), Point(100, 0), Point(30, 1)];
    match i
    case 0 => State([], BOXES_EVENTS, [], tops, 0, 0)
    case 1 => State([0], BOXES_EVENTS[1..], [], tops, 0, 0)
    case 2 => State([0, 1], BOXES_EVENTS[2..], [Crossing(0, 1, Point(25, 1))], tops, 0, 0)
    case 3 => State([1, 0], BOXES_EVENTS[2..], [], [Point(25, 1), Point(25, 1), Point(30, 1)], 1, 1)
  }

  lemma BoxesBegin()
    ensures ValidEdges(Boxes()) && Init(Boxes()) == BoxesState(0)
  {
    BoxesSorted();
    hide CompareEvents, Sorted;
    BeginsWith(Boxes(), BOXES_EVENTS);
  }

  lemma BoxesSorted()
    ensures ValidEdges(Boxes()) && Sorted(Boxes(), BOXES_EVENTS)
  {
    hide SlopeCompare, CompareOpposite;
    AdjacentSorted(Boxes(), BOXES_EVENTS);
  }

  lemma BoxesStart0()
    ensures Step(Boxes(), BoxesState(0), BoxesState(1))
  {
    hide QueueMeeting, MeetingBelow, Queues, Step, CompareEdges;
    QueuesNothing(Boxes(), Absent, Present(0), Present(0), Absent);
    PlayStart(Boxes(), BoxesState(0), 0, 0, [], BoxesState(1));
  }

  lemma BoxesStart1()
    ensures Step(Boxes(), BoxesState(1), BoxesState(2))
  {
    hide QueueMeeting, MeetingBelow, Queues, Step;
    BoxesMeet();
    QueuesFirst(Boxes(), 0, 1, Present(1), Absent, Point(25, 1));
    PlayStart(Boxes(), BoxesState(1), 1, 1, BoxesState(2).crossings, BoxesState(2));
  }

  lemma BoxesCross()
    ensures Step(Boxes(), BoxesState(2), BoxesState(3))
  {
    hide QueueMeeting, MeetingBelow, Queues, Step, SlopeCompare, CompareOpposite;
    QueuesNothing(Boxes(), Absent, Present(1), Present(0), Absent);
    PlayCrossing(Boxes(), BoxesState(2), Crossing(0, 1, Point(25, 1)), 0, [], BoxesState(3));
  }

  // The steep edge 1 crosses edge 0 at (25, 1.5), stored as (25, 1). When edge 2 starts at
  // (30, 1), its box and that of edge 1 are apart and put it right of edge 1, which is at
  // 50 on that row.
  lemma BoxesDecideWrongly() returns (run: seq<State>)
    ensures var edges := Boxes();
      && ValidEdges(edges) && Run(edges, run) && run[|run| - 1].line == [1, 0]
      && WellFormed(edges, run[|run| - 1]) && NextEvent(edges, run[|run| - 1]) == Pending(Start(2))
      && CompareEdges(View(edges, run[|run| - 1], 1), View(edges, run[|run| - 1], 2), 1) < 0
      && XAt(edges[1], 1.0) == 50.0 && XAt(edges[2], 1.0) == 30.0
  {
    hide Step, Init;
    run := [BoxesState(0), BoxesState(1), BoxesState(2), BoxesState(3)];
    BoxesBegin();
    BoxesStart0();
    BoxesStart1();
    BoxesCross();
  }

  // ---- A row falls ----

  function Fall(): Edges {
    [Edge(Point(1, 1), Point(2, 2), false),
     Edge(Point(2, 0), Point(1, 3), false),
     Edge(Point(0, 1), Point(3, 3), false),
     Edge(Point(2, 1), Point(1, 3), false)]
  }

  const FALL_EVENTS: seq<Event> := [Start(1), Start(2), Start(0), Start(3), Stop(0), Stop(1), Stop(3), Stop(2)]

  lemma FallMeet21()
    ensures MeetingBelow(Fall()[2], Fall()[1]) == Meet(Point(1, 1))
  {
    hide EndDet, EdgeIntersect, NumeratorY, Denominator;
    var a, b := Fall()[2], Fall()[1];
    KnownEndDet(a, -3);
    KnownEndDet(b, 6);
    ReportedFrom(a, 3, 2, -3, b, -1, 3, 6, 15, 21, 11, Ordinate(1, true), Ordinate(1, true));
  }

  lemma FallMeet01()
    ensures MeetingBelow(Fall()[0], Fall()[1]) == Meet(Point(1, 1))
  {
    hide EndDet, EdgeIntersect, NumeratorY, Denominator;
    var a, b := Fall()[0], Fall()[1];
    KnownEndDet(a, 0);
    KnownEndDet(b, 6);
    ReportedFrom(a, 1, 1, 0, b, -1, 3, 6, 6, 6, 4, Ordinate(1, true), Ordinate(1, true));
  }

  lemma FallMeet23()
    ensures MeetingBelow(Fall()[2], Fall()[3]) == Meet(Point(1, 2))
  {
    hide EndDet, EdgeIntersect, NumeratorY, Denominator;
    var a, b := Fall()[2], Fall()[3];
    KnownEndDet(a, -3);
    KnownEndDet(b, 5);
    ReportedFrom(a, 3, 2, -3, b, -1, 2, 5, 12, 16, 8, Ordinate(1, true), Ordinate(2, false));
  }

  lemma FallMeet03()
    ensures MeetingBelow(Fall()[0], Fall()[3]) == Meet(Point(1, 1))
  {
    hide EndDet, EdgeIntersect, NumeratorY, Denominator;
    var a, b := Fall()[0], Fall()[3];
    KnownEndDet(a, 0);
    KnownEndDet(b, 5);
    ReportedFrom(a, 1, 1, 0, b, -1, 2, 5, 5, 5, 3, Ordinate(1, true), Ordinate(1, true));
  }

  function FallState(i: nat): State
    requires i < 8
  {
    var tops := [Point(1, 1), Point(2, 0), Point(0, 1), Point(2, 1)];
    var moved := [Point(1, 1), Point(1, 1), Point(1, 1), Point(2, 1)];
    match i
    case 0 => State([], FALL_EVENTS, [], tops, 0, 0)
    case 1 => State([1], FALL_EVENTS[1..], [], tops, 0, 0)
    case 2 => State([2, 1], FALL_EVENTS[2..], [Crossing(2, 1, Point(1, 1))], tops, 1, 0)
    case 3 => State([1, 2], FALL_EVENTS[2..], [], moved, 1, 1)
    case 4 => State([0, 1, 2], FALL_EVENTS[3..], [Crossing(0, 1, Point(1, 1))], moved, 1, 1)
    case 5 => State([1, 0, 2], FALL_EVENTS[3..], [], moved, 1, 2)
    case 6 => State([1, 0, 2, 3], FALL_EVENTS[4..], [Crossing(2, 3, Point(1, 2))], moved, 1, 2)
    case 7 => State([1, 0, 3, 2], FALL_EVENTS[4..], [Crossing(0, 3, Point(1, 1))],
                    moved[2 := Point(1, 2)][3 := Point(1, 2)], 2, 3)
  }

  lemma FallSorted()
    ensures ValidEdges(Fall()) && Sorted(Fall(), FALL_EVENTS)
  {
    hide CompareOpposite;
    AdjacentSorted(Fall(), FALL_EVENTS);
  }

  lemma FallMembers(x: Event)
    ensures x in FALL_EVENTS <==> !x.Crossing? && x.edge < 4
  {
  }

  lemma FallBegin()
    ensures ValidEdges(Fall()) && Init(Fall()) == FallState(0)
  {
    hide CompareEvents, Sorted, Init;
    FallSorted();
    forall x: Event ensures x in FALL_EVENTS <==> !x.Crossing? && x.edge < 4 { FallMembers(x); }
    BeginsWith(Fall(), FALL_EVENTS);
  }

  lemma FallStep0()
    ensures Step(Fall(), FallState(0), FallState(1))
  {
    hide QueueMeeting, MeetingBelow, Queues, Step;
    QueuesNothing(Fall(), Absent, Present(1), Present(1), Absent);
    PlayStart(Fall(), FallState(0), 1, 0, FallState(1).crossings, FallState(1));
  }

  lemma FallStep1()
    ensures Step(Fall(), FallState(1), FallState(2))
  {
    hide QueueMeeting, MeetingBelow, Queues, Step;
    FallMeet21();
    QueuesSecond(Fall(), Absent, Present(2), 2, 1, Point(1, 1));
    PlayStart(Fall(), FallState(1), 2, 0, FallState(2).crossings, FallState(2));
  }

  lemma FallStep2()
    ensures Step(Fall(), FallState(2), FallState(3))
  {
    hide QueueMeeting, MeetingBelow, Queues, Step, SlopeCompare, CompareOpposite;
    QueuesNothing(Fall(), Absent, Present(1), Present(2), Absent);
    PlayCrossing(Fall(), FallState(2), Crossing(2, 1, Point(1, 1)), 0, FallState(3).crossings, FallState(3));
  }

  // Edge 0 starts at (1, 1), left of edge 1, which is at 5/3 on that row.
  lemma FallCompare(a: Edge, b: Edge, p: Point)
    requires a == Fall()[1] && b == Fall()[0] && p == Point(1, 1)
    ensures CompareEdges(Active(a, p, 1), Active(b, p, 0), 1) > 0
  {
    hide SlopeCompare, ComparePoints, CompareXGeneral;
  }

  lemma FallStep3()
    ensures Step(Fall(), FallState(3), FallState(4))
  {
    hide QueueMeeting, MeetingBelow, Queues, Step, CompareEdges, CompareEvents;
    FallCompare(Fall()[1], Fall()[0], Point(1, 1));
    FallMeet01();
    QueuesSecond(Fall(), Absent, Present(0), 0, 1, Point(1, 1));
    PlayStart(Fall(), FallState(3), 0, 0, FallState(4).crossings, FallState(4));
  }

  lemma FallParts02()
    ensures !MeetingBelow(Fall()[0], Fall()[2]).Meet?
  {
    hide EdgeIntersect;
    assert SlopeCompare(Fall()[0], Fall()[2]) < 0;
  }

  lemma FallStep4()
    ensures Step(Fall(), FallState(4), FallState(5))
  {
    hide QueueMeeting, MeetingBelow, Queues, Step, SlopeCompare, CompareOpposite;
    FallParts02();
    QueuesNothing(Fall(), Absent, Present(1), Present(0), Present(2));
    PlayCrossing(Fall(), FallState(4), Crossing(0, 1, Point(1, 1)), 0, FallState(5).crossings, FallState(5));
  }

  lemma FallStep5()
    ensures Step(Fall(), FallState(5), FallState(6))
  {
    hide QueueMeeting, MeetingBelow, Queues, Step;
    FallMeet23();
    QueuesFirst(Fall(), 2, 3, Present(3), Absent, Point(1, 2));
    PlayStart(Fall(), FallState(5), 3, 3, FallState(6).crossings, FallState(6));
  }

  lemma FallStep6()
    ensures Step(Fall(), FallState(6), FallState(7))
  {
    hide QueueMeeting, MeetingBelow, Queues, Step, SlopeCompare, CompareOpposite;
    FallMeet03();
    QueuesFirst(Fall(), 0, 3, Present(2), Absent, Point(1, 1));
    PlayCrossing(Fall(), FallState(6), Crossing(2, 3, Point(1, 2)), 2, FallState(7).crossings, FallState(7));
  }

  // Once two rounded crossings have put edges 0 and 3 next to each other in the wrong
  // order, their crossing at row 5/3 is queued on row 1 while the sweep is on row 2.
  lemma RowsCanFall() returns (run: seq<State>)
    ensures var edges := Fall();
      && ValidEdges(edges) && Run(edges, run) && WellFormed(edges, run[|run| - 1])
      && run[|run| - 1].y == 2 && NextEvent(edges, run[|run| - 1]) == Queued(Crossing(0, 3, Point(1, 1)))
  {
    hide Step, Init, CompareOpposite, SlopeCompare;
    run := [FallState(0), FallState(1), FallState(2), FallState(3),
            FallState(4), FallState(5), FallState(6), FallState(7)];
    FallBegin();
    FallStep0();
    FallStep1();
    FallStep2();
    FallStep3();
    FallStep4();
    FallStep5();
    FallStep6();
  }

  // ---- A crossing far above the grid is queued ----

  function Far(): Edges {
    [Edge(Point(9, 0), Point(1, 2), false),
     Edge(Point(0, 1), Point(2140000000, 1900000001), false),
     Edge(Point(1, 1), Point(2140000004, 1900000003), false)]
  }

  const FAR_EVENTS: seq<Event> := [Start(0), Start(1), Start(2), Stop(0), Stop(1), Stop(2)]

  lemma FarMeet10()
    ensures MeetingBelow(Far()[1], Far()[0]) == Meet(Point(1, 1))
  {
    hide EndDet, EdgeIntersect, NumeratorY, Denominator;
    var a, b := Far()[1], Far()[0];
    KnownEndDet(a, -2140000000);
    KnownEndDet(b, 18);
    ReportedFrom(a, 2140000000, 1900000000, -2140000000, b, -8, 2, 18,
                 21400000000, 38480000000, 19480000000, Ordinate(1, true), Ordinate(1, true));
  }

  lemma FarMeet20()
    ensures MeetingBelow(Far()[2], Far()[0]) == Meet(Point(1, 1))
  {
    hide EndDet, EdgeIntersect, NumeratorY, Denominator;
    var a, b := Far()[2], Far()[0];
    KnownEndDet(a, -240000001);
    KnownEndDet(b, 18);
    ReportedFrom(a, 2140000003, 1900000002, -240000001, b, -8, 2, 18,
                 36600000046, 34680000038, 19480000022, Ordinate(1, true), Ordinate(1, true));
  }

  lemma FarMeet21()
    ensures MeetingBelow(Far()[2], Far()[1]) == Meet(Point(1431587012, 1752713774))
  {
    hide EndDet, EdgeIntersect, NumeratorY, Denominator;
    var a, b := Far()[2], Far()[1];
    KnownEndDet(a, -240000001);
    KnownEndDet(b, -2140000000);
    ReportedFrom(a, 2140000003, 1900000002, -240000001, b, 2140000000, 1900000000, -2140000000,
                 -4066000004280000000, -3610000002380000000, 1420000000,
                 Ordinate(1431587012, true), Ordinate(1752713774, true));
  }

  function FarState(i: nat): State
    requires i < 6
  {
    var tops := [Point(9, 0), Point(0, 1), Point(1, 1)];
    var moved := [Point(1, 1), Point(1, 1), Point(1, 1)];
    match i
    case 0 => State([], FAR_EVENTS, [], tops, 0, 0)
    case 1 => State([0], FAR_EVENTS[1..], [], tops, 0, 0)
    case 2 => State([1, 0], FAR_EVENTS[2..], [Crossing(1, 0, Point(1, 1))], tops, 1, 0)
    case 3 => State([0, 1], FAR_EVENTS[2..], [], moved, 1, 1)
    case 4 => State([2, 0, 1], FAR_EVENTS[3..], [Crossing(2, 0, Point(1, 1))], moved, 1, 1)
    case 5 => State([0, 2, 1], FAR_EVENTS[3..], [Crossing(2, 1, Point(1431587012, 1752713774))], moved, 1, 2)
  }

  lemma FarSorted()
    ensures ValidEdges(Far()) && Sorted(Far(), FAR_EVENTS)
  {
    hide CompareOpposite;
    AdjacentSorted(Far(), FAR_EVENTS);
  }

  lemma FarBegin()
    ensures ValidEdges(Far()) && Init(Far()) == FarState(0)
  {
    FarSorted();
    hide CompareEvents, Sorted;
    BeginsWith(Far(), FAR_EVENTS);
  }

  lemma FarStep0()
    ensures Step(Far(), FarState(0), FarState(1))
  {
    hide QueueMeeting, MeetingBelow, Queues, Step;
    QueuesNothing(Far(), Absent, Present(0), Present(0), Absent);
    PlayStart(Far(), FarState(0), 0, 0, FarState(1).crossings, FarState(1));
  }

  lemma FarStep1()
    ensures Step(Far(), FarState(1), FarState(2))
  {
    hide QueueMeeting, MeetingBelow, Queues, Step;
    FarMeet10();
    QueuesSecond(Far(), Absent, Present(1), 1, 0, Point(1, 1));
    PlayStart(Far(), FarState(1), 1, 0, FarState(2).crossings, FarState(2));
  }

  lemma FarStep2()
    ensures Step(Far(), FarState(2), FarState(3))
  {
    hide QueueMeeting, MeetingBelow, Queues, Step, SlopeCompare, CompareOpposite;
    QueuesNothing(Far(), Absent, Present(0), Present(1), Absent);
    PlayCrossing(Far(), FarState(2), Crossing(1, 0, Point(1, 1)), 0, FarState(3).crossings, FarState(3));
  }

  lemma FarStep3()
    ensures Step(Far(), FarState(3), FarState(4))
  {
    hide QueueMeeting, MeetingBelow, Queues, Step;
    FarMeet20();
    QueuesSecond(Far(), Absent, Present(2), 2, 0, Point(1, 1));
    PlayStart(Far(), FarState(3), 2, 0, FarState(4).crossings, FarState(4));
  }

  lemma FarStep4()
    ensures Step(Far(), FarState(4), FarState(5))
  {
    hide QueueMeeting, MeetingBelow, Queues, Step, SlopeCompare, CompareOpposite;
    FarMeet21();
    QueuesSecond(Far(), Absent, Present(0), 2, 1, Point(1431587012, 1752713774));
    PlayCrossing(Far(), FarState(4), Crossing(2, 0, Point(1, 1)), 0, FarState(5).crossings, FarState(5));
  }

  // Two nearly parallel edges come to stand next to each other in the wrong order. They
  // cross more than 2^31 rows above the grid, and are queued to meet within it.
  lemma FarCrossingIsQueued() returns (run: seq<State>)
    ensures var edges, c := Far(), Crossing(2, 1, Point(1431587012, 1752713774));
      && ValidEdges(edges) && InRange(edges[1]) && InRange(edges[2])
      && Run(edges, run) && run[|run| - 1].crossings == [c]
      && Slope(edges[2]) > Slope(edges[1]) && CrossY(edges[2], edges[1]) < -(TWO31 as real)
      && !CrossInside(edges[2], edges[1])
  {
    hide Step, Init;
    run := [FarState(0), FarState(1), FarState(2), FarState(3), FarState(4), FarState(5)];
    FarBegin();
    FarStep0();
    FarStep1();
    FarStep2();
    FarStep3();
    FarStep4();
    FarAbove();
  }

  lemma FarAbove()
    ensures var a, b := Far()[2], Far()[1];
      && Downward(a) && Downward(b) && InRange(a) && InRange(b)
      && Slope(a) > Slope(b) && CrossY(a, b) < -(TWO31 as real) && !CrossInside(a, b)
  {
    var a, b := Far()[2], Far()[1];
    hide Slope, CrossY, NumeratorY, Denominator, EndDet;
    KnownEndDet(a, -240000001);
    KnownEndDet(b, -2140000000);
    KnownOperands(a, 2140000003, 1900000002, -240000001, b, 2140000000, 1900000000, -2140000000);
    FarNumbers();
    DenominatorIsExact(a, b);
    SlopeCompareIsExact(a, b);
    NumeratorYIsExact(a, b);
    QuotientBelowRow(-3610000002380000000, 1420000000, CrossY(a, b));
    OutsideRows(a, b);
  }

  lemma FarNumbers()
    ensures -2140000000 * 1900000002 - -240000001 * 1900000000 == -3610000002380000000
    ensures 2140000003 * 1900000000 - 1900000002 * 2140000000 == 1420000000
  {
  }

  lemma QuotientBelowRow(num: int, den: int, v: real)
    requires den == 1420000000 && num == -3610000002380000000 && num as real == v * den as real
    ensures v < -(TWO31 as real)
  {
  }
}
