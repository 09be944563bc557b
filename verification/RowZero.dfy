// What the sweep can be misled by: with no assumption that stored points are exact,
// every intersection it queues is a true crossing, or one above row -2^31
// (cairo-bentley-ottmann.c, lines 608-776, 894-927 and 1378-1484).
module RowZero {
  import opened Geometry
  import opened Intersect
  import opened Events
  import opened EventQueue
  import opened Sweep
  import opened SweepOrder

  // Started edges come before those still to start.
  ghost predicate StartsInOrder(edges: Edges, s: State)
    requires WellFormed(edges, s)
  {
    forall e, f :: 0 <= e < |edges| && 0 <= f < |edges| && Start(e) !in s.pending && Start(f) in s.pending ==>
      CompareEvents(edges, Start(e), Start(f)) < 0
  }

  // A stored point is not above its edge, and no active edge's is after a start to come.
  ghost predicate MiddlesBehind(edges: Edges, s: State)
    requires WellFormed(edges, s)
  {
    && (forall e :: 0 <= e < |edges| ==> s.middle[e].y >= edges[e].top.y)
    && (forall e :: 0 <= e < |edges| && Start(e) in s.pending ==> s.middle[e] == edges[e].top)
    && (forall e, f :: e in s.line && 0 <= f < |edges| && Start(f) in s.pending ==>
          ComparePoints(s.middle[e], edges[f].top) <= 0)
  }

  // Two edges from row 0, left before right: if they converge, they start in that order.
  predicate InOrderOnRowZero(a: Edge, b: Edge) {
    a.top.y == 0 && b.top.y == 0 && SlopeCompare(a, b) > 0 ==> a.top.x <= b.top.x
  }

  ghost predicate RowZeroOrdered(edges: Edges, line: seq<nat>) {
    forall i, j :: 0 <= i < j < |line| ==>
      line[i] < |edges| && line[j] < |edges| && InOrderOnRowZero(edges[line[i]], edges[line[j]])
  }

  // The edges of the event truly cross there, or far above the grid.
  ghost predicate TrueOrFar(edges: Edges, c: Event)
    requires ValidEdges(edges)
  {
    && c.Crossing? && c.e1 < |edges| && c.e2 < |edges|
    && Slope(edges[c.e1]) > Slope(edges[c.e2])
    && var a, b := edges[c.e1], edges[c.e2];
      || (CrossInside(a, b) && c.at == Point(CrossX(a, b).Floor, CrossY(a, b).Floor))
      || CrossY(a, b) < -(TWO31 as real)
  }

  ghost predicate RowZeroInv(edges: Edges, s: State) {
    && Inv(edges, s) && AllInRange(edges)
    && StartsInOrder(edges, s) && MiddlesBehind(edges, s) && RowZeroOrdered(edges, s.line)
    && forall c :: c in s.crossings ==> TrueOrFar(edges, c)
  }

  // What is reported of two edges in order on row 0 is a true crossing, or a far one.
  lemma ReportedIsTrueOrFar(edges: Edges, e1: nat, e2: nat)
    requires ValidEdges(edges) && AllInRange(edges) && e1 < |edges| && e2 < |edges|
    requires InOrderOnRowZero(edges[e1], edges[e2])
    requires MeetingBelow(edges[e1], edges[e2]).Meet?
    ensures TrueOrFar(edges, Crossing(e1, e2, MeetingBelow(edges[e1], edges[e2]).at))
  {
    hide XAt, Slope, CrossX, CrossY, EdgeIntersect, SlopeCompare;
    var a, b := edges[e1], edges[e2];
    SlopeCompareIsExact(a, b);
    MeetingBelowConverges(a, b);
    if CrossY(a, b) >= 0.0 {
      MeetsIffInside(a, b);
    } else if CrossY(a, b) >= -(TWO31 as real) {
      MisjudgedExactly(a, b);
      XAtEnds(a);
      XAtEnds(b);
      PruningIsSound(a, b, 0.0);
      assert false;
    }
  }

  lemma QueuedIsTrueOrFar(edges: Edges, crossings: seq<Event>, left: Neighbour, right: Neighbour)
    requires ValidEdges(edges) && AllInRange(edges) && Sorted(edges, crossings)
    requires KnownNeighbour(edges, left) && KnownNeighbour(edges, right)
    requires forall c :: c in crossings ==> TrueOrFar(edges, c)
    requires left.Present? && right.Present? ==> InOrderOnRowZero(edges[left.id], edges[right.id])
    ensures Sorted(edges, QueueMeeting(edges, crossings, left, right))
    ensures forall c :: c in QueueMeeting(edges, crossings, left, right) ==> TrueOrFar(edges, c)
  {
    hide TrueOrFar, MeetingBelow, Sorted, InOrderOnRowZero, AllInRange;
    QueueMeetingSound(edges, crossings, left, right);
    if left.Present? && right.Present? && MeetingBelow(edges[left.id], edges[right.id]).Meet? {
      ReportedIsTrueOrFar(edges, left.id, right.id);
    }
  }

  // ---- An edge from row 0 starts ----

  // What compares greater than an edge that starts on row 0 starts at the same point
  // and leans at least as far right.
  lemma GreaterOnRowZero(g: Active, f: Active)
    requires Downward(g.edge) && Downward(f.edge) && f.middle == f.edge.top && f.edge.top.y == 0
    requires g.edge.top.y >= 0 && g.middle.y >= 0 && g.id != f.id
    requires ComparePoints(g.edge.top, f.edge.top) <= 0 && ComparePoints(g.middle, f.edge.top) <= 0
    requires CompareEdges(g, f, 0) > 0
    ensures g.edge.top == f.edge.top && SlopeCompare(g.edge, f.edge) >= 0
  {
    hide SlopeCompare;
  }

  lemma SlopesChain(a: Edge, b: Edge, c: Edge)
    requires Downward(a) && Downward(b) && Downward(c)
    requires SlopeCompare(a, b) >= 0 && SlopeCompare(b, c) > 0
    ensures SlopeCompare(a, c) > 0
  {
    hide SlopeCompare, Slope;
    SlopeCompareIsExact(a, b);
    SlopeCompareIsExact(b, c);
    SlopeCompareIsExact(a, c);
  }

  // All active edges have tops before that of an edge about to start.
  lemma TopsBehind(edges: Edges, s: State, e: nat, f: nat)
    requires Inv(edges, s) && StartsInOrder(edges, s) && e in s.line && f < |edges| && Start(f) in s.pending
    ensures e < |edges| && ComparePoints(edges[e].top, edges[f].top) <= 0
  {
    hide SlopeCompare, Sorted;
    var i :| 0 <= i < |s.line| && s.line[i] == e;
    assert CompareEvents(edges, Start(e), Start(f)) < 0;
  }

  // What lies right of the place of an edge that starts.
  lemma AfterStarted(edges: Edges, s: State, f: nat, k: nat, j: nat)
    requires RowZeroInv(edges, s) && Legal(edges, s, k) && NextEvent(edges, s).ev == Start(f)
    requires k <= j < |s.line|
    ensures f < |edges| && s.line[j] < |edges| && InOrderOnRowZero(edges[f], edges[s.line[j]])
  {
    hide SlopeCompare, CompareEdges, CompareEvents, Sorted, TrueOrFar;
    TakenWaits(edges, s);
    var g, e := s.line[k], s.line[j];
    assert g in s.line && e in s.line;
    if edges[f].top.y == 0 {
      TopsBehind(edges, s, g, f);
      var t := Taken(edges, s);
      GreaterOnRowZero(View(edges, t, g), View(edges, t, f));
      if SlopeCompare(edges[f], edges[e]) > 0 {
        SlopesChain(edges[g], edges[f], edges[e]);
        SlopeCompareIsExact(edges[g], edges[g]);
        assert j != k;
      }
    }
  }

  lemma InsertedInOrder(edges: Edges, line: seq<nat>, k: nat, f: nat)
    requires RowZeroOrdered(edges, line) && k <= |line| && f < |edges|
    requires forall i :: 0 <= i < k ==> line[i] < |edges| && InOrderOnRowZero(edges[line[i]], edges[f])
    requires forall j :: k <= j < |line| ==> line[j] < |edges| && InOrderOnRowZero(edges[f], edges[line[j]])
    ensures RowZeroOrdered(edges, InsertAt(line, k, f))
  {
    hide InOrderOnRowZero;
    var r := InsertAt(line, k, f);
    forall i, j | 0 <= i < j < |r|
      ensures r[i] < |edges| && r[j] < |edges| && InOrderOnRowZero(edges[r[i]], edges[r[j]])
    {
      var i', j' := if i < k then i else i - 1, if j < k then j else j - 1;
      assert i != k ==> r[i] == line[i'];
      assert j != k ==> r[j] == line[j'];
    }
  }

  lemma StartedOnRowZero(edges: Edges, s: State, f: nat, k: nat)
    requires RowZeroInv(edges, s) && Legal(edges, s, k) && NextEvent(edges, s).ev == Start(f)
    ensures k <= |s.line| && RowZeroOrdered(edges, InsertAt(s.line, k, f))
  {
    hide SlopeCompare, CompareEdges, CompareEvents, Sorted, TrueOrFar, ComparePoints;
    TakenWaits(edges, s);
    forall i | 0 <= i < k ensures s.line[i] < |edges| && InOrderOnRowZero(edges[s.line[i]], edges[f]) {
      assert s.line[i] in s.line;
      TopsBehind(edges, s, s.line[i], f);
      if edges[s.line[i]].top.y == edges[f].top.y { PointsByRow(edges[s.line[i]].top, edges[f].top); }
    }
    forall j | k <= j < |s.line| ensures s.line[j] < |edges| && InOrderOnRowZero(edges[f], edges[s.line[j]]) {
      AfterStarted(edges, s, f, k, j);
    }
    hide Inv, StartsInOrder, MiddlesBehind, InOrderOnRowZero, RowZeroOrdered;
    InsertedInOrder(edges, s.line, k, f);
  }

  lemma PointsByRow(p: Point, q: Point)
    requires ComparePoints(p, q) <= 0 && p.y == q.y
    ensures p.x <= q.x
  {
  }

  // ---- Every iteration keeps it ----

  lemma StartsStayInOrder(edges: Edges, s: State, k: nat)
    requires Inv(edges, s) && StartsInOrder(edges, s) && Legal(edges, s, k)
    ensures StartsInOrder(edges, Apply(edges, s, k))
  {
    hide CompareEvents, CompareEdges, Sorted, MeetingBelow;
    TakenWaits(edges, s);
  }

  // The event taken is not after any start still to come.
  lemma TakenIsBehind(edges: Edges, s: State)
    requires Inv(edges, s) && !NextEvent(edges, s).Nothing?
    ensures Refers(edges, NextEvent(edges, s).ev)
    ensures forall f :: 0 <= f < |edges| && Start(f) in Taken(edges, s).pending ==>
              ComparePoints(At(edges, NextEvent(edges, s).ev), edges[f].top) <= 0
  {
    hide CompareEvents, Sorted, MeetingBelow, ComparePoints;
    TakenWaits(edges, s);
    var t, ev := Taken(edges, s), NextEvent(edges, s).ev;
    forall f | 0 <= f < |edges| && Start(f) in t.pending
      ensures ComparePoints(At(edges, ev), edges[f].top) <= 0
    {
      OrderIsByPoint(edges, ev, Start(f));
    }
  }

  // Each case on its own: an edge joins with its top as middle, one leaves, or two move
  // theirs to the event's point.
  lemma MiddlesAfterStart(edges: Edges, s: State, t: State, e: nat, k: nat)
    requires WellFormed(edges, s) && WellFormed(edges, t) && MiddlesBehind(edges, s) && e < |edges| && k <= |s.line|
    requires t.middle == s.middle && t.line == InsertAt(s.line, k, e) && Start(e) in s.pending
    requires forall x :: x in t.pending ==> x in s.pending
    requires forall f :: 0 <= f < |edges| && Start(f) in t.pending ==> ComparePoints(edges[e].top, edges[f].top) <= 0
    ensures MiddlesBehind(edges, t)
  {
    hide ComparePoints;
    InsertAtMembers(s.line, k, e);
  }

  lemma MiddlesAfterMove(edges: Edges, s: State, t: State, e1: nat, e2: nat, p: Point)
    requires WellFormed(edges, s) && WellFormed(edges, t) && MiddlesBehind(edges, s) && e1 < |edges| && e2 < |edges|
    requires t.middle == s.middle[e1 := p][e2 := p] && forall e :: e in t.line <==> e in s.line
    requires Start(e1) !in t.pending && Start(e2) !in t.pending
    requires forall x :: x in t.pending ==> x in s.pending
    requires p.y >= edges[e1].top.y && p.y >= edges[e2].top.y
    requires forall f :: 0 <= f < |edges| && Start(f) in t.pending ==> ComparePoints(p, edges[f].top) <= 0
    ensures MiddlesBehind(edges, t)
  {
    hide ComparePoints;
  }

  lemma MiddlesAfterLess(edges: Edges, s: State, t: State)
    requires WellFormed(edges, s) && WellFormed(edges, t) && MiddlesBehind(edges, s)
    requires t.middle == s.middle && forall e :: e in t.line ==> e in s.line
    requires forall x :: x in t.pending ==> x in s.pending
    ensures MiddlesBehind(edges, t)
  {
    hide ComparePoints;
  }

  lemma MiddlesStayBehind(edges: Edges, s: State, k: nat)
    requires Inv(edges, s) && MiddlesBehind(edges, s) && Legal(edges, s, k)
    ensures MiddlesBehind(edges, Apply(edges, s, k))
  {
    hide CompareEvents, CompareEdges, Sorted, MeetingBelow, ComparePoints, Inv, MiddlesBehind;
    InvParts(edges, s);
    TakenWaits(edges, s);
    TakenIsBehind(edges, s);
    var r, ev := Apply(edges, s, k), NextEvent(edges, s).ev;
    match ev
    case Start(e) => MiddlesAfterStart(edges, s, r, e, k);
    case Stop(e) =>
      DeleteAtMembers(s.line, k);
      MiddlesAfterLess(edges, s, r);
    case Crossing(e1, e2, p) =>
      if Adjacent(s.line, k, e2) {
        SwapAtMembers(s.line, k);
        assert SoundCrossing(edges, s, ev);
        SoundRow(edges, s, ev);
        assert s.line[k] in s.line && s.line[k + 1] in s.line;
        MiddlesAfterMove(edges, s, r, e1, e2, p);
      } else {
        MiddlesAfterLess(edges, s, r);
      }
  }

  lemma InvParts(edges: Edges, s: State)
    requires Inv(edges, s)
    ensures ValidEdges(edges) && WellFormed(edges, s) && Distinct(s.line) && Lifetimes(edges, s)
    ensures Sorted(edges, s.pending) && Sorted(edges, s.crossings)
    ensures forall c :: c in s.crossings ==> SoundCrossing(edges, s, c)
  {
  }

  lemma SoundRow(edges: Edges, s: State, c: Event)
    requires ValidEdges(edges) && SoundCrossing(edges, s, c)
    ensures c.at.y >= edges[c.e1].top.y && c.at.y >= edges[c.e2].top.y
    ensures SlopeCompare(edges[c.e1], edges[c.e2]) > 0
  {
    MeetIsBeforeBottoms(edges[c.e1], edges[c.e2]);
    MeetingBelowConverges(edges[c.e1], edges[c.e2]);
    SlopeCompareIsExact(edges[c.e1], edges[c.e2]);
  }

  lemma SwappedOnRowZero(edges: Edges, line: seq<nat>, k: nat)
    requires RowZeroOrdered(edges, line) && k + 1 < |line|
    requires line[k] < |edges| && line[k + 1] < |edges| && SlopeCompare(edges[line[k + 1]], edges[line[k]]) <= 0
    ensures RowZeroOrdered(edges, SwapAt(line, k))
  {
    hide SlopeCompare;
    var r := SwapAt(line, k);
    forall i, j | 0 <= i < j < |r|
      ensures r[i] < |edges| && r[j] < |edges| && InOrderOnRowZero(edges[r[i]], edges[r[j]])
    {
      var i' := if i == k then k + 1 else if i == k + 1 then k else i;
      var j' := if j == k then k + 1 else if j == k + 1 then k else j;
      assert r[i] == line[i'] && r[j] == line[j'];
      if i' < j' { assert InOrderOnRowZero(edges[line[i']], edges[line[j']]); }
    }
  }

  lemma LineStaysOnRowZero(edges: Edges, s: State, k: nat)
    requires RowZeroInv(edges, s) && Legal(edges, s, k)
    ensures RowZeroOrdered(edges, Apply(edges, s, k).line)
  {
    hide CompareEvents, CompareEdges, Sorted, MeetingBelow, SlopeCompare, InOrderOnRowZero, StartsInOrder,
         MiddlesBehind;
    TakenWaits(edges, s);
    var ev := NextEvent(edges, s).ev;
    match ev
    case Start(e) => StartedOnRowZero(edges, s, e, k);
    case Stop(e) =>
    case Crossing(e1, e2, p) =>
      if Adjacent(s.line, k, e2) {
        assert SoundCrossing(edges, s, ev);
        SoundRow(edges, s, ev);
        SlopeCompareIsExact(edges[e1], edges[e2]);
        SlopeCompareIsExact(edges[e2], edges[e1]);
        SwappedOnRowZero(edges, s.line, k);
      }
  }

  // The pair at two neighbouring positions of the line.
  lemma Neighbouring(edges: Edges, line: seq<nat>, i: int)
    requires RowZeroOrdered(edges, line)
    ensures KnownNeighbour(edges, Member(line, i)) || |line| == 1
    ensures Member(line, i).Present? && Member(line, i + 1).Present? ==>
      && KnownNeighbour(edges, Member(line, i)) && KnownNeighbour(edges, Member(line, i + 1))
      && InOrderOnRowZero(edges[line[i]], edges[line[i + 1]])
  {
    hide InOrderOnRowZero;
    var h, j := i - 1, i + 1;
    if 0 <= i < |line| {
      if j < |line| {
        assert line[i] < |edges| && line[j] < |edges| && InOrderOnRowZero(edges[line[i]], edges[line[j]]);
      } else if h >= 0 {
        assert line[h] < |edges| && line[i] < |edges|;
      }
    }
  }

  // The two queries after an edge joins, or after a swap, ask about neighbours of the
  // new line.
  lemma QueuedTwice(edges: Edges, line: seq<nat>, crossings: seq<Event>, i: int, j: int)
    requires ValidEdges(edges) && AllInRange(edges) && RowZeroOrdered(edges, line)
    requires AllRefer(edges, crossings) && Sorted(edges, crossings)
    requires KnownNeighbour(edges, Member(line, i)) && KnownNeighbour(edges, Member(line, i + 1))
    requires KnownNeighbour(edges, Member(line, j)) && KnownNeighbour(edges, Member(line, j + 1))
    requires forall c :: c in crossings ==> TrueOrFar(edges, c)
    ensures var q := QueueMeeting(edges, crossings, Member(line, i), Member(line, i + 1));
      forall c :: c in QueueMeeting(edges, q, Member(line, j), Member(line, j + 1)) ==> TrueOrFar(edges, c)
  {
    hide TrueOrFar, Sorted, InOrderOnRowZero, AllInRange, QueueMeeting, RowZeroOrdered;
    Neighbouring(edges, line, i);
    Neighbouring(edges, line, j);
    QueuedIsTrueOrFar(edges, crossings, Member(line, i), Member(line, i + 1));
    var q := QueueMeeting(edges, crossings, Member(line, i), Member(line, i + 1));
    QueuedIsTrueOrFar(edges, q, Member(line, j), Member(line, j + 1));
  }

  // Everything queued so far is true or far, and the edges are in range.
  ghost predicate TrueQueue(edges: Edges, t: State) {
    && ValidEdges(edges) && AllInRange(edges) && WellFormed(edges, t) && Sorted(edges, t.crossings)
    && forall c :: c in t.crossings ==> TrueOrFar(edges, c)
  }

  lemma TrueAfterStart(edges: Edges, t: State, e: nat, k: nat)
    requires TrueQueue(edges, t) && e < |edges| && k <= |t.line| && RowZeroOrdered(edges, InsertAt(t.line, k, e))
    ensures forall c :: c in Started(edges, t, e, k).crossings ==> TrueOrFar(edges, c)
  {
    hide TrueOrFar, Sorted, InOrderOnRowZero, AllInRange, QueueMeeting, RowZeroOrdered;
    AroundStarted(t.line, k, e);
    QueuedTwice(edges, InsertAt(t.line, k, e), t.crossings, k - 1, k);
  }

  lemma TrueAfterStop(edges: Edges, t: State, k: nat)
    requires TrueQueue(edges, t) && k < |t.line| && RowZeroOrdered(edges, DeleteAt(t.line, k))
    ensures forall c :: c in Stopped(edges, t, k).crossings ==> TrueOrFar(edges, c)
  {
    hide TrueOrFar, Sorted, InOrderOnRowZero, AllInRange, QueueMeeting, RowZeroOrdered;
    AroundStopped(t.line, k);
    Neighbouring(edges, DeleteAt(t.line, k), k - 1);
    QueuedIsTrueOrFar(edges, t.crossings, Member(t.line, k - 1), Member(t.line, k + 1));
  }

  lemma TrueAfterSwap(edges: Edges, t: State, k: nat, p: Point)
    requires TrueQueue(edges, t) && k + 1 < |t.line| && RowZeroOrdered(edges, SwapAt(t.line, k))
    ensures forall c :: c in Swapped(edges, t, k, p).crossings ==> TrueOrFar(edges, c)
  {
    hide TrueOrFar, Sorted, InOrderOnRowZero, AllInRange, QueueMeeting, RowZeroOrdered;
    AroundSwapped(t.line, k);
    QueuedTwice(edges, SwapAt(t.line, k), t.crossings, k - 1, k + 1);
  }

  lemma CrossingsStayTrue(edges: Edges, s: State, k: nat)
    requires RowZeroInv(edges, s) && Legal(edges, s, k)
    ensures forall c :: c in Apply(edges, s, k).crossings ==> TrueOrFar(edges, c)
  {
    hide CompareEvents, InsertPosition, Sorted, TrueOrFar, AllInRange, RowZeroOrdered, Inv, StartsInOrder,
         MiddlesBehind, Started, Stopped, Swapped;
    InvParts(edges, s);
    TakenWaits(edges, s);
    LineStaysOnRowZero(edges, s, k);
    var t := Taken(edges, s);
    assert TrueQueue(edges, t);
    LinesOf(edges, s, k);
    match NextEvent(edges, s).ev
    case Start(e) => TrueAfterStart(edges, t, e, k);
    case Stop(e) => TrueAfterStop(edges, t, k);
    case Crossing(e1, e2, p) => if Adjacent(t.line, k, e2) { TrueAfterSwap(edges, t, k, p); }
  }

  lemma LinesOf(edges: Edges, s: State, k: nat)
    requires WellFormed(edges, s) && Legal(edges, s, k)
    ensures var r, t := Apply(edges, s, k).line, Taken(edges, s);
      match NextEvent(edges, s).ev
      case Start(e) => e < |edges| && k <= |t.line| && r == InsertAt(t.line, k, e)
      case Stop(e) => r == DeleteAt(t.line, k)
      case Crossing(e1, e2, p) => Adjacent(t.line, k, e2) ==> r == SwapAt(t.line, k)
  {
    hide CompareEvents, CompareEdges;
  }

  lemma AroundStarted(line: seq<nat>, k: nat, e: nat)
    requires k <= |line|
    ensures var r := InsertAt(line, k, e);
      Member(r, k - 1) == Member(line, k - 1) && Member(r, k) == Present(e) && Member(r, k + 1) == Member(line, k)
  {
  }

  lemma AroundStopped(line: seq<nat>, k: nat)
    requires k < |line|
    ensures var r := DeleteAt(line, k); Member(r, k - 1) == Member(line, k - 1) && Member(r, k) == Member(line, k + 1)
  {
  }

  lemma AroundSwapped(line: seq<nat>, k: nat)
    requires k + 1 < |line|
    ensures var r := SwapAt(line, k);
      && Member(r, k - 1) == Member(line, k - 1) && Member(r, k) == Present(line[k + 1])
      && Member(r, k + 1) == Present(line[k]) && Member(r, k + 2) == Member(line, k + 2)
  {
  }

  lemma StepKeepsRowZero(edges: Edges, s: State, k: nat)
    requires RowZeroInv(edges, s) && Legal(edges, s, k)
    ensures RowZeroInv(edges, Apply(edges, s, k))
  {
    StepKeepsInv(edges, s, k);
    StartsStayInOrder(edges, s, k);
    MiddlesStayBehind(edges, s, k);
    LineStaysOnRowZero(edges, s, k);
    CrossingsStayTrue(edges, s, k);
    hide Inv, StartsInOrder, MiddlesBehind, RowZeroOrdered, TrueOrFar, Apply, Legal;
  }

  lemma InitRowZero(edges: Edges)
    requires ValidEdges(edges) && AllInRange(edges)
    ensures RowZeroInv(edges, Init(edges))
  {
    hide CompareEvents, Sorted, Sort, Inv, TrueOrFar, AllInRange;
    InitInv(edges);
    StartStopsRefer(edges);
    StartStopsMembers(|edges|);
    SortSorts(edges, StartStops(|edges|));
  }

  // Whatever is reported of the two edges is a true crossing, or a far one.
  ghost predicate ReportsTruly(edges: Edges, e1: nat, e2: nat)
    requires ValidEdges(edges)
  {
    && e1 < |edges| && e2 < |edges|
    && (MeetingBelow(edges[e1], edges[e2]).Meet? ==>
          TrueOrFar(edges, Crossing(e1, e2, MeetingBelow(edges[e1], edges[e2]).at)))
  }

  lemma ReportsOnLine(edges: Edges, s: State)
    requires RowZeroInv(edges, s)
    ensures forall i, j :: 0 <= i < j < |s.line| ==> ReportsTruly(edges, s.line[i], s.line[j])
  {
    hide MeetingBelow, TrueOrFar, Inv, InOrderOnRowZero, AllInRange;
    InvParts(edges, s);
    forall i, j | 0 <= i < j < |s.line| ensures ReportsTruly(edges, s.line[i], s.line[j]) {
      var e1, e2 := s.line[i], s.line[j];
      assert InOrderOnRowZero(edges[e1], edges[e2]);
      if MeetingBelow(edges[e1], edges[e2]).Meet? { ReportedIsTrueOrFar(edges, e1, e2); }
    }
  }

  // In every reachable state, rounding or not, each queued intersection is a true
  // crossing strictly inside both edges, stored at its floor, or lies above row -2^31;
  // and so is whatever would be reported of two active edges in list order.
  lemma {:induction false} QueuedAreTrueOrFar(edges: Edges, run: seq<State>, i: nat)
    requires ValidEdges(edges) && AllInRange(edges) && Run(edges, run) && i < |run|
    ensures RowZeroInv(edges, run[i])
    ensures forall c :: c in run[i].crossings ==> TrueOrFar(edges, c)
    ensures forall a, b :: 0 <= a < b < |run[i].line| ==> ReportsTruly(edges, run[i].line[a], run[i].line[b])
  {
    hide Apply, Legal, MeetingBelow, TrueOrFar, Inv, StartsInOrder, MiddlesBehind, RowZeroOrdered, ReportsTruly;
    if i == 0 {
      InitRowZero(edges);
    } else {
      QueuedAreTrueOrFar(edges, run, i - 1);
      assert Step(edges, run[i - 1], run[i]);
      var k := Choice(edges, run[i - 1], run[i]);
      StepKeepsRowZero(edges, run[i - 1], k);
    }
    ReportsOnLine(edges, run[i]);
  }
}
