// A run of the machine's sweep that stops an edge before a crossing queued for it
// (cairo-bentley-ottmann.c, lines 144-151, 811-829 and 1425-1484).
module LateCrossing {
  import opened Geometry
  import opened Intersect
  import opened Events
  import opened EventQueue
  import opened Sweep
  import opened SweepOrder
  import opened RowZero
  import opened Machine
  import opened MachineSweep
  import opened MachineOrder
  import opened MachineSafety
  import opened Rounding

  // The last edge only puts the corner of the box at the origin.
  function Late(): Edges {
    [Edge(Point(1200000006, 0), Point(1199999998, 2), false),
     Edge(Point(1200000000, 1), Point(394693633, 2013265921), false),
     Edge(Point(1200000001, 1), Point(555754908, 1610612737), false),
     Edge(Point(0, 2013265930), Point(0, 2013265931), false)]
  }

  const LATE_EVENTS: seq<Event> := [Start(0), Start(1), Start(2), Stop(0), Stop(2), Stop(1), Start(3), Stop(3)]

  const LATE: Event := Crossing(2, 1, Point(-2021225474, 1610612737))

  lemma LateMeet10()
    ensures MeetingBelow(Late()[1], Late()[0]) == Meet(Point(1199999999, 1))
  {
    hide EndDet, EdgeIntersect, NumeratorY, Denominator;
    var a, b := Late()[1], Late()[0];
    KnownEndDet(a, 2415919104805306367);
    KnownEndDet(b, 2400000012);
    ReportedFrom(a, -805306367, 2013265920, 2415919104805306367, b, -8, 2, 2400000012,
                 17394617547978774532, 22548578306, 14495514626, Ordinate(1199999999, true), Ordinate(1, true));
  }

  lemma LateMeet20()
    ensures MeetingBelow(Late()[2], Late()[0]) == Meet(Point(1200000000, 1))
  {
    hide EndDet, EdgeIntersect, NumeratorY, Denominator;
    var a, b := Late()[2], Late()[0];
    KnownEndDet(a, 1932735285454857829);
    KnownEndDet(b, 2400000012);
    ReportedFrom(a, -644245093, 1610612736, 1932735285454857829, b, -8, 2, 2400000012,
                 13915694052707921516, 14817637174, 11596411702, Ordinate(1200000000, true), Ordinate(1, true));
  }

  lemma LateMeet21()
    ensures MeetingBelow(Late()[2], Late()[1]) == Meet(LATE.at)
  {
    hide EndDet, EdgeIntersect, NumeratorY, Denominator;
    var a, b := Late()[2], Late()[1];
    KnownEndDet(a, 1932735285454857829);
    KnownEndDet(b, 2415919104805306367);
    ReportedFrom(a, -644245093, 1610612736, 1932735285454857829, b, -805306367, 2013265920, 2415919104805306367,
                 2746588153472090112, -3242591730498797568, 1207959552,
                 Ordinate(-2021225474, true), Ordinate(1610612737, false));
  }

  function LateState(i: nat): State
    requires i < 8
  {
    var tops := [Point(1200000006, 0), Point(1200000000, 1), Point(1200000001, 1), Point(0, 2013265930)];
    var once := tops[0 := Point(1199999999, 1)][1 := Point(1199999999, 1)];
    var twice := once[0 := Point(1200000000, 1)][2 := Point(1200000000, 1)];
    match i
    case 0 => State([], LATE_EVENTS, [], tops, 0, 0)
    case 1 => State([0], LATE_EVENTS[1..], [], tops, 0, 0)
    case 2 => State([1, 0], LATE_EVENTS[2..], [Crossing(1, 0, Point(1199999999, 1))], tops, 1, 0)
    case 3 => State([0, 1], LATE_EVENTS[2..], [], once, 1, 1)
    case 4 => State([2, 0, 1], LATE_EVENTS[3..], [Crossing(2, 0, Point(1200000000, 1))], once, 1, 1)
    case 5 => State([0, 2, 1], LATE_EVENTS[3..], [LATE], twice, 1, 2)
    case 6 => State([2, 1], LATE_EVENTS[4..], [LATE], twice, 2, 2)
    case 7 => State([1], LATE_EVENTS[5..], [LATE], twice, 1610612737, 2)
  }

  lemma LateSorted()
    ensures ValidEdges(Late()) && AllInRange(Late()) && Sorted(Late(), LATE_EVENTS)
  {
    hide CompareOpposite;
    AdjacentSorted(Late(), LATE_EVENTS);
  }

  lemma LateMembers(x: Event)
    ensures x in LATE_EVENTS <==> !x.Crossing? && x.edge < 4
  {
  }

  lemma LateBegin()
    ensures ValidEdges(Late()) && AllInRange(Late()) && Init(Late()) == LateState(0)
  {
    hide CompareEvents, Sorted, Init;
    LateSorted();
    forall x: Event ensures x in LATE_EVENTS <==> !x.Crossing? && x.edge < 4 { LateMembers(x); }
    BeginsWith(Late(), LATE_EVENTS);
  }

  lemma LateStep0()
    ensures Step(Late(), LateState(0), LateState(1))
  {
    hide QueueMeeting, MeetingBelow, Queues, Step, CompareEdges, CompareEvents;
    QueuesNothing(Late(), Absent, Present(0), Present(0), Absent);
    PlayStart(Late(), LateState(0), 0, 0, [], LateState(1));
  }

  // Edge 0 is at 1200000002 on row 1, right of where edges 1 and 2 start.
  lemma LateCompare(a: Edge, b: Edge, p: Point, id: nat)
    requires a == Late()[0] && (p == a.top || p == Point(1199999999, 1)) && 1 <= id <= 2 && b == Late()[id]
    ensures CompareEdges(Active(a, p, 0), Active(b, b.top, id), 1) > 0
  {
    hide SlopeCompare, ComparePoints, CompareXGeneral;
  }

  lemma LateStep1()
    ensures Step(Late(), LateState(1), LateState(2))
  {
    hide QueueMeeting, MeetingBelow, Queues, Step, CompareEdges, CompareEvents;
    LateCompare(Late()[0], Late()[1], Point(1200000006, 0), 1);
    LateMeet10();
    QueuesSecond(Late(), Absent, Present(1), 1, 0, Point(1199999999, 1));
    PlayStart(Late(), LateState(1), 1, 0, LateState(2).crossings, LateState(2));
  }

  lemma LateStep2()
    ensures Step(Late(), LateState(2), LateState(3))
  {
    hide QueueMeeting, MeetingBelow, Queues, Step, SlopeCompare, CompareOpposite;
    QueuesNothing(Late(), Absent, Present(0), Present(1), Absent);
    PlayCrossing(Late(), LateState(2), Crossing(1, 0, Point(1199999999, 1)), 0, [], LateState(3));
  }

  lemma LateStep3()
    ensures Step(Late(), LateState(3), LateState(4))
  {
    hide QueueMeeting, MeetingBelow, Queues, Step, CompareEdges, CompareEvents;
    LateCompare(Late()[0], Late()[2], Point(1199999999, 1), 2);
    LateMeet20();
    QueuesSecond(Late(), Absent, Present(2), 2, 0, Point(1200000000, 1));
    PlayStart(Late(), LateState(3), 2, 0, LateState(4).crossings, LateState(4));
  }

  lemma LateStep4()
    ensures Step(Late(), LateState(4), LateState(5))
  {
    hide QueueMeeting, MeetingBelow, Queues, Step, SlopeCompare, CompareOpposite;
    LateMeet21();
    QueuesSecond(Late(), Absent, Present(0), 2, 1, LATE.at);
    PlayCrossing(Late(), LateState(4), Crossing(2, 0, Point(1200000000, 1)), 0, [LATE], LateState(5));
  }

  lemma LateStep5()
    ensures Step(Late(), LateState(5), LateState(6))
  {
    hide MeetingBelow, Step, SlopeCompare, CompareOpposite;
    var edges, s, r := Late(), LateState(5), LateState(6);
    assert NextEvent(edges, s) == Pending(Stop(0));
    assert Legal(edges, s, 0);
    assert r == Apply(edges, s, 0);
    hide Legal, Apply;
    StepOf(edges, s, 0);
  }

  // Up to there both orders agree.
  lemma LateRun() returns (run: seq<State>)
    ensures ValidEdges(Late()) && AllInRange(Late()) && |run| == 7 && run[6] == LateState(6)
    ensures Run(Late(), run) && MachineRun(Late(), run)
  {
    hide Step, MachineStep, Init, AllInRange;
    run := [LateState(0), LateState(1), LateState(2), LateState(3), LateState(4), LateState(5), LateState(6)];
    LateBegin();
    LateStep0();
    LateStep1();
    LateStep2();
    LateStep3();
    LateStep4();
    LateStep5();
    assert Run(Late(), run);
    forall i | 0 < i < |run| ensures MachineStep(Late(), run[i - 1], run[i]) {
      var j := i - 1;
      assert run[j] == LateState(j) && run[i] == LateState(i) && Step(Late(), run[j], run[i]);
      ReachableInv(Late(), run, j);
      InvParts(Late(), run[j]);
      LateHeads(j);
      LateQueue(i);
      StepFitsHere(Late(), run[j], run[i]);
    }
  }

  lemma OneFits(edges: Edges, q: seq<Event>, ev: Event)
    requires q == [] || q == [ev]
    requires Refers(edges, ev) && Storable(At(edges, ev))
    ensures QueueFits(edges, q)
  {
  }

  lemma LateHeads(i: nat)
    requires i < 6 && WellFormed(Late(), LateState(i))
    ensures HeadsFit(Late(), LateState(i))
  {
    hide WellFormed;
  }

  lemma LateQueue(i: nat)
    requires i <= 6
    ensures QueueFits(Late(), LateState(i).crossings)
  {
    hide QueueFits;
    if i == 2 {
      OneFits(Late(), LateState(i).crossings, Crossing(1, 0, Point(1199999999, 1)));
    } else if i == 4 {
      OneFits(Late(), LateState(i).crossings, Crossing(2, 0, Point(1200000000, 1)));
    } else {
      OneFits(Late(), LateState(i).crossings, LATE);
    }
  }

  lemma Reached()
    ensures AllInRange(Late()) && Inv(Late(), LateState(6)) && Safe(Late(), LateState(6))
  {
    hide Inv, Safe, Run, MachineRun;
    var run := LateRun();
    ReachableInv(Late(), run, 6);
    InvIsSafe(Late(), LateState(6));
  }

  // The machine takes the stop of edge 2 first.
  lemma LateStep6()
    ensures WellFormed(Late(), LateState(6)) && StopsTooSoon(Late(), LateState(6))
    ensures NextEvent(Late(), LateState(6)) == Queued(LATE)
    ensures MachineNext(Late(), LateState(6)) == Pending(Stop(2))
    ensures MachineStep(Late(), LateState(6), LateState(7))
  {
    hide MeetingBelow, SlopeCompare, CompareOpposite, MachineStep, MachineCompareEvents, Inv, Safe, AllInRange;
    var edges, s, r := Late(), LateState(6), LateState(7);
    Reached();
    StopsTooSoonExactly(edges, s, 2);
    assert MachineNext(edges, s) == Pending(Stop(2));
    assert MachineStopped(edges, TakenAs(edges, s, Pending(Stop(2))), 0, r);
    StepAtIsStep(edges, s, 0, r);
  }

  // Then the crossing comes, whose edge is gone.
  lemma LateIsStuck(r: State)
    ensures WellFormed(Late(), LateState(7)) && MachineNext(Late(), LateState(7)) == Queued(LATE)
    ensures !MachineStep(Late(), LateState(7), r)
  {
    hide MachineSlopeCompare, MachineCompareOpposite, Sub32, MachineSwapped;
    Delta(2013265921, 1610612737);
    assert MachineNext(Late(), LateState(7)) == Queued(LATE);
  }

  // Edges 2 and 1 come to stand next to each other in the wrong order. They cross more
  // than 2^31 rows above the grid and right of it, are queued to meet on the row edge 2
  // stops on, far left of it, and the machine stops edge 2 first: the crossing dequeued
  // next names an edge that is not on the list any more.
  lemma CrossingOutlivesItsEdge() returns (run: seq<State>)
    ensures ValidEdges(Late()) && AllInRange(Late()) && MachineRun(Late(), run) && |run| == 8
    ensures Run(Late(), run[..7]) && WellFormed(Late(), run[6])
    ensures NextEvent(Late(), run[6]) == Queued(LATE) && MachineNext(Late(), run[6]) == Pending(Stop(2))
    ensures var s := run[7];
      && WellFormed(Late(), s) && MachineNext(Late(), s) == Queued(LATE) && LATE.e1 !in s.line
      && forall r :: !MachineStep(Late(), s, r)
  {
    hide Run, MachineRun, MachineStep, AllInRange, StopsTooSoon;
    var done := LateRun();
    LateStep6();
    run := done + [LateState(7)];
    assert run[..7] == done;
    RunIsPrefixAndStep(Late(), run);
    forall r ensures !MachineStep(Late(), LateState(7), r) { LateIsStuck(r); }
    LateIsStuck(LateState(7));
  }
}
