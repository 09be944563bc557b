// With exact crossings the active list is the true left-to-right order: the
// invariant behind the sweep (cairo-bentley-ottmann.c, lines 894-927, 1378-1484).
module SweepOrder {
  import opened Arith
  import opened Geometry
  import opened Intersect
  import opened Events
  import opened EventQueue
  import opened Sweep
  import opened Order

  predicate AllInRange(edges: Edges) {
    forall i :: 0 <= i < |edges| ==> InRange(edges[i])
  }

  // Edges cross, strictly inside both, only at integer points.
  ghost predicate IntegerCrossings(edges: Edges)
    requires ValidEdges(edges)
  {
    forall i, j :: 0 <= i < |edges| && 0 <= j < |edges| && CrossInside(edges[i], edges[j]) ==>
      PosOf(Point(CrossX(edges[i], edges[j]).Floor, CrossY(edges[i], edges[j]).Floor)) == CrossPos(edges[i], edges[j])
  }

  // ---- Neighbours that meet below are queued ----

  predicate QueuedPair(edges: Edges, crossings: seq<Event>, a: nat, b: nat)
    requires a < |edges| && b < |edges|
  {
    MeetingBelow(edges[a], edges[b]).Meet? ==> Crossing(a, b, MeetingBelow(edges[a], edges[b]).at) in crossings
  }

  ghost predicate AllQueued(edges: Edges, line: seq<nat>, crossings: seq<Event>) {
    && (forall i :: 0 <= i < |line| ==> line[i] < |edges|)
    && forall i :: 0 <= i && i + 1 < |line| ==> QueuedPair(edges, crossings, line[i], line[i + 1])
  }

  lemma MeetingIsQueued(edges: Edges, crossings: seq<Event>, left: Neighbour, right: Neighbour)
    requires ValidEdges(edges) && Sorted(edges, crossings)
    requires KnownNeighbour(edges, left) && KnownNeighbour(edges, right)
    ensures left.Present? && right.Present? ==>
              QueuedPair(edges, QueueMeeting(edges, crossings, left, right), left.id, right.id)
    ensures forall a: nat, b: nat :: a < |edges| && b < |edges| && QueuedPair(edges, crossings, a, b) ==>
              QueuedPair(edges, QueueMeeting(edges, crossings, left, right), a, b)
  {
    hide MeetingBelow, Sorted, QueueMeeting;
    QueueMeetingSound(edges, crossings, left, right);
  }

  lemma StartQueued(edges: Edges, t: State, e: nat, k: nat)
    requires ValidEdges(edges) && WellFormed(edges, t) && Sorted(edges, t.crossings) && e < |edges| && k <= |t.line|
    requires AllQueued(edges, t.line, t.crossings)
    ensures AllQueued(edges, Started(edges, t, e, k).line, Started(edges, t, e, k).crossings)
  {
    hide MeetingBelow, Sorted, QueueMeeting, QueuedPair;
    var r := Started(edges, t, e, k);
    var left, right := Member(t.line, k - 1), Member(t.line, k);
    var q := QueueMeeting(edges, t.crossings, left, Present(e));
    QueueMeetingSound(edges, t.crossings, left, Present(e));
    MeetingIsQueued(edges, t.crossings, left, Present(e));
    MeetingIsQueued(edges, q, Present(e), right);
    forall i | 0 <= i && i + 1 < |r.line| ensures QueuedPair(edges, r.crossings, r.line[i], r.line[i + 1]) {
      if i + 1 < k {
        assert QueuedPair(edges, t.crossings, t.line[i], t.line[i + 1]);
      } else if i > k {
        assert QueuedPair(edges, t.crossings, t.line[i - 1], t.line[i - 1 + 1]);
      }
    }
  }

  lemma StopQueued(edges: Edges, t: State, k: nat)
    requires ValidEdges(edges) && WellFormed(edges, t) && Sorted(edges, t.crossings) && k < |t.line|
    requires AllQueued(edges, t.line, t.crossings)
    ensures AllQueued(edges, Stopped(edges, t, k).line, Stopped(edges, t, k).crossings)
  {
    hide MeetingBelow, Sorted, QueueMeeting, QueuedPair;
    var r := Stopped(edges, t, k);
    MeetingIsQueued(edges, t.crossings, Member(t.line, k - 1), Member(t.line, k + 1));
    forall i | 0 <= i && i + 1 < |r.line| ensures QueuedPair(edges, r.crossings, r.line[i], r.line[i + 1]) {
      if i + 1 < k {
        assert QueuedPair(edges, t.crossings, t.line[i], t.line[i + 1]);
      } else if i >= k {
        assert QueuedPair(edges, t.crossings, t.line[i + 1], t.line[i + 1 + 1]);
      }
    }
  }

  // Every neighbouring pair but the one swapped needs its event still queued.
  lemma SwapQueued(edges: Edges, t: State, k: nat, p: Point)
    requires ValidEdges(edges) && WellFormed(edges, t) && Sorted(edges, t.crossings) && k + 1 < |t.line|
    requires forall i :: 0 <= i && i + 1 < |t.line| && i != k ==>
             QueuedPair(edges, t.crossings, t.line[i], t.line[i + 1])
    requires Slope(edges[t.line[k]]) > Slope(edges[t.line[k + 1]])
    ensures AllQueued(edges, Swapped(edges, t, k, p).line, Swapped(edges, t, k, p).crossings)
  {
    hide Sorted, QueueMeeting, QueuedPair, Slope, MeetingBelow;
    var r := Swapped(edges, t, k, p);
    var e1, e2 := t.line[k], t.line[k + 1];
    var left, right := Member(t.line, k - 1), Member(t.line, k + 2);
    var q := QueueMeeting(edges, t.crossings, left, Present(e2));
    QueueMeetingSound(edges, t.crossings, left, Present(e2));
    MeetingIsQueued(edges, t.crossings, left, Present(e2));
    MeetingIsQueued(edges, q, Present(e1), right);
    forall i | 0 <= i && i + 1 < |r.line| ensures QueuedPair(edges, r.crossings, r.line[i], r.line[i + 1]) {
      if i + 1 < k || i > k + 1 {
        assert QueuedPair(edges, t.crossings, t.line[i], t.line[i + 1]);
      } else if i == k {
        DivergingPair(edges, r.crossings, e2, e1);
      }
    }
  }

  lemma DivergingPair(edges: Edges, crossings: seq<Event>, a: nat, b: nat)
    requires ValidEdges(edges) && a < |edges| && b < |edges| && Slope(edges[a]) < Slope(edges[b])
    ensures QueuedPair(edges, crossings, a, b)
  {
    SlopeCompareIsExact(edges[a], edges[b]);
  }

  // ---- The invariant at position p ----

  ghost predicate LineOrdered(edges: Edges, line: seq<nat>, p: Pos)
    requires ValidEdges(edges)
  {
    && (forall i :: 0 <= i < |line| ==> line[i] < |edges|)
    && forall i, j :: 0 <= i < j < |line| ==> OrderedAt(edges[line[i]], edges[line[j]], p)
  }

  // A queued intersection is the exact crossing of its edges.
  ghost predicate ExactCrossing(edges: Edges, c: Event)
    requires ValidEdges(edges)
  {
    && c.Crossing? && c.e1 < |edges| && c.e2 < |edges|
    && CrossInside(edges[c.e1], edges[c.e2])
    && PosOf(c.at) == CrossPos(edges[c.e1], edges[c.e2])
  }

  // The stored `middle` of an edge is a point of the edge already passed, or its top.
  ghost predicate ExactMiddles(edges: Edges, s: State)
    requires ValidEdges(edges) && WellFormed(edges, s)
  {
    forall e :: 0 <= e < |edges| ==>
      && XAt(edges[e], s.middle[e].y as real) == s.middle[e].x as real
      && (e in s.line ==> s.middle[e].y <= s.y)
      && (Start(e) in s.pending ==> s.middle[e] == edges[e].top)
  }

  ghost predicate NotAfter(edges: Edges, evs: seq<Event>, p: Pos)
    requires AllRefer(edges, evs)
  {
    forall x :: x in evs ==> Refers(edges, x) && !Precedes(PosOf(At(edges, x)), p)
  }

  ghost predicate TopsPassed(edges: Edges, line: seq<nat>, p: Pos) {
    forall e :: e in line ==> e < |edges| && !Precedes(p, PosOf(edges[e].top))
  }

  ghost predicate OrderInv(edges: Edges, s: State, p: Pos) {
    && Inv(edges, s) && AllInRange(edges) && IntegerCrossings(edges)
    && p.y == s.y as real && s.y >= 0
    && AllQueued(edges, s.line, s.crossings)
    && LineOrdered(edges, s.line, p)
    && TopsPassed(edges, s.line, p)
    && NotAfter(edges, s.pending, p) && NotAfter(edges, s.crossings, p)
    && (forall c :: c in s.crossings ==> ExactCrossing(edges, c))
    && ExactMiddles(edges, s)
  }

  const START := Pos(-1.0, 0.0)

  lemma InitOrderInv(edges: Edges)
    requires ValidEdges(edges) && AllInRange(edges) && IntegerCrossings(edges)
    ensures OrderInv(edges, Init(edges), START)
  {
    hide CompareEvents, Sorted, IntegerCrossings;
    InitInv(edges);
    forall e | 0 <= e < |edges|
      ensures XAt(edges[e], edges[e].top.y as real) == edges[e].top.x as real
    {
      XAtEnds(edges[e]);
    }
  }

  // ---- From one event to the next ----

  // A converging pair of neighbours that crosses strictly inside both has its
  // crossing queued.
  lemma CrossingIsQueued(edges: Edges, s: State, p: Pos, i: nat)
    requires OrderInv(edges, s, p) && i + 1 < |s.line|
    requires var a, b := edges[s.line[i]], edges[s.line[i + 1]]; CrossInside(a, b) && Slope(a) > Slope(b)
    ensures exists c :: c in s.crossings && c.Crossing? && c.e1 == s.line[i] && c.e2 == s.line[i + 1]
              && PosOf(c.at) == CrossPos(edges[s.line[i]], edges[s.line[i + 1]])
  {
    hide Sorted, EdgeIntersect, Slope, XAt, CrossX, CrossY, SlopeCompare;
    var l, r := s.line[i], s.line[i + 1];
    var a, b := edges[l], edges[r];
    CrossOnBoth(a, b);
    MeetsIffInside(a, b);
    SlopeCompareIsExact(a, b);
    assert QueuedPair(edges, s.crossings, l, r);
    assert Crossing(l, r, MeetingBelow(a, b).at) in s.crossings;
  }

  // An edge of the line does not end before the next event.
  lemma BottomsAhead(edges: Edges, s: State)
    requires Inv(edges, s) && !NextEvent(edges, s).Nothing?
    ensures forall e :: e in s.line ==>
              e < |edges| && !Precedes(PosOf(edges[e].bottom), PosOf(At(edges, NextEvent(edges, s).ev)))
  {
    hide CompareEvents, Sorted;
    NextIsMinimum(edges, s.pending, s.crossings);
    forall e | e in s.line
      ensures e < |edges| && !Precedes(PosOf(edges[e].bottom), PosOf(At(edges, NextEvent(edges, s).ev)))
    {
      assert Stop(e) in s.pending;
      OrderIsByPoint(edges, NextEvent(edges, s).ev, Stop(e));
      PrecedesIsCompare(edges[e].bottom, At(edges, NextEvent(edges, s).ev));
      OrderIsByPoint(edges, Stop(e), NextEvent(edges, s).ev);
      CompareEventsTotal(edges, NextEvent(edges, s).ev, Stop(e));
    }
  }

  lemma {:induction false} BeforeChain(edges: Edges, line: seq<nat>, q: Pos, i: nat, j: nat)
    requires ValidEdges(edges) && forall i :: 0 <= i < |line| ==> line[i] < |edges|
    requires forall i :: 0 <= i && i + 1 < |line| ==> OrderedBefore(edges[line[i]], edges[line[i + 1]], q)
    requires i < j < |line|
    ensures OrderedBefore(edges[line[i]], edges[line[j]], q)
    decreases j - i
  {
    hide OrderedBefore;
    if i + 1 < j {
      BeforeChain(edges, line, q, i, j - 1);
      assert OrderedBefore(edges[line[j - 1]], edges[line[j - 1 + 1]], q);
      BeforeIsTransitive(edges[line[i]], edges[line[j - 1]], edges[line[j]], q);
    }
  }

  lemma {:induction false} AfterChain(edges: Edges, line: seq<nat>, q: Pos, i: nat, j: nat)
    requires ValidEdges(edges) && forall i :: 0 <= i < |line| ==> line[i] < |edges|
    requires forall i :: 0 <= i && i + 1 < |line| ==> OrderedAfter(edges[line[i]], edges[line[i + 1]], q)
    requires i < j < |line|
    ensures OrderedAfter(edges[line[i]], edges[line[j]], q)
    decreases j - i
  {
    hide OrderedAfter;
    if i + 1 < j {
      AfterChain(edges, line, q, i, j - 1);
      assert OrderedAfter(edges[line[j - 1]], edges[line[j - 1 + 1]], q);
      AfterIsTransitive(edges[line[i]], edges[line[j - 1]], edges[line[j]], q);
    }
  }

  // At any later position no farther than the next event, the line is in the order
  // that position sees.
  lemma OrderAhead(edges: Edges, s: State, p: Pos, q: Pos)
    requires OrderInv(edges, s, p) && Precedes(p, q)
    requires forall e :: e in s.line ==> !Precedes(PosOf(edges[e].bottom), q)
    requires forall c :: c in s.crossings ==> !Precedes(PosOf(c.at), q)
    ensures forall i, j :: 0 <= i < j < |s.line| ==> OrderedBefore(edges[s.line[i]], edges[s.line[j]], q)
  {
    assert ValidEdges(edges);
    hide Sorted, OrderedAt, OrderedBefore, Inv, IntegerCrossings, AllQueued, ExactMiddles, CrossInside, ValidEdges;
    forall i | 0 <= i && i + 1 < |s.line|
      ensures OrderedBefore(edges[s.line[i]], edges[s.line[i + 1]], q)
    {
      var a, b := edges[s.line[i]], edges[s.line[i + 1]];
      assert s.line[i] in s.line && s.line[i + 1] in s.line;
      assert OrderedAt(a, b, p);
      if CrossInside(a, b) && Slope(a) > Slope(b) {
        CrossingIsQueued(edges, s, p, i);
      }
      OrderKept(a, b, p, q);
    }
    forall i, j | 0 <= i < j < |s.line|
      ensures OrderedBefore(edges[s.line[i]], edges[s.line[j]], q)
    {
      BeforeChain(edges, s.line, q, i, j);
    }
  }

  // The line at the next event, before the event happens, is in order there.
  lemma Arrive(edges: Edges, s: State, p: Pos)
    requires OrderInv(edges, s, p) && !NextEvent(edges, s).Nothing?
    ensures ValidEdges(edges) && WellFormed(edges, s)
    ensures var q := PosOf(At(edges, NextEvent(edges, s).ev));
      && LineOrdered(edges, s.line, q) && TopsPassed(edges, s.line, q)
      && p.y <= q.y
  {
    hide Sorted, OrderedAt, CompareEvents, IntegerCrossings, AllQueued, ExactMiddles, CrossInside;
    var q := PosOf(At(edges, NextEvent(edges, s).ev));
    NextIsMinimum(edges, s.pending, s.crossings);
    assert !Precedes(q, p);
    if q != p {
      BottomsAhead(edges, s);
      forall c | c in s.crossings ensures !Precedes(PosOf(c.at), q) {
        NextFirst(edges, s, c);
      }
      OrderAhead(edges, s, p, q);
      forall i, j | 0 <= i < j < |s.line|
        ensures OrderedAt(edges[s.line[i]], edges[s.line[j]], q)
      {
        assert s.line[i] in s.line && s.line[j] in s.line;
        NotStartingAt(edges[s.line[i]], edges[s.line[j]], p, q);
      }
    }
  }

  lemma NotStartingAt(a: Edge, b: Edge, p: Pos, q: Pos)
    requires Downward(a) && Downward(b) && Precedes(p, q)
    requires !Precedes(p, PosOf(a.top)) && !Precedes(p, PosOf(b.top))
    requires OrderedBefore(a, b, q)
    ensures OrderedAt(a, b, q)
  {
    hide OrderedBefore;
  }

  // No waiting event lies before the next one.
  lemma NextFirst(edges: Edges, s: State, x: Event)
    requires Inv(edges, s) && !NextEvent(edges, s).Nothing?
    requires x in s.pending || x in s.crossings
    ensures Refers(edges, x) && !Precedes(PosOf(At(edges, x)), PosOf(At(edges, NextEvent(edges, s).ev)))
  {
    hide CompareEvents, Sorted;
    var ev := NextEvent(edges, s).ev;
    NextIsMinimum(edges, s.pending, s.crossings);
    OrderIsByPoint(edges, x, ev);
    CompareEventsTotal(edges, ev, x);
    PrecedesIsCompare(At(edges, x), At(edges, ev));
  }

  // ---- The new meetings found at q are exact, and not before q ----

  lemma NewMeeting(edges: Edges, l: nat, r: nat, q: Pos, y: int, c: Event)
    requires ValidEdges(edges) && AllInRange(edges) && IntegerCrossings(edges)
    requires l < |edges| && r < |edges| && OrderedBefore(edges[l], edges[r], q) && q.y == y as real && y >= 0
    requires c.Crossing? && c.e1 == l && c.e2 == r && MeetingBelow(edges[l], edges[r]) == Meet(c.at)
    ensures GoodEvent(edges, c, q)
  {
    hide Slope, XAt, CrossX, CrossY, EdgeIntersect, CrossInside, MeetingBelow;
    var a, b := edges[l], edges[r];
    MeetingBelowIsExact(a, b, q.y);
    PruningIsSound(a, b, q.y);
    SlopeCompareIsExact(a, b);
    CrossOnBoth(a, b);
    CrossIsTheMeeting(a, b, q.y);
  }

  ghost predicate GoodEvent(edges: Edges, c: Event, q: Pos)
    requires ValidEdges(edges)
  {
    ExactCrossing(edges, c) && !Precedes(PosOf(c.at), q)
  }

  // What the queue must satisfy after an event at q.
  ghost predicate GoodQueue(edges: Edges, crossings: seq<Event>, q: Pos)
    requires ValidEdges(edges)
  {
    forall c :: c in crossings ==> GoodEvent(edges, c, q)
  }

  lemma GoodMeeting(edges: Edges, crossings: seq<Event>, left: Neighbour, right: Neighbour, q: Pos, y: int)
    requires ValidEdges(edges) && AllInRange(edges) && IntegerCrossings(edges)
    requires Sorted(edges, crossings) && KnownNeighbour(edges, left) && KnownNeighbour(edges, right)
    requires GoodQueue(edges, crossings, q) && q.y == y as real && y >= 0
    requires left.Present? && right.Present? ==> OrderedBefore(edges[left.id], edges[right.id], q)
    ensures GoodQueue(edges, QueueMeeting(edges, crossings, left, right), q)
  {
    hide Sorted, OrderedBefore, GoodEvent, MeetingBelow, QueueMeeting, IntegerCrossings;
    QueueMeetingSound(edges, crossings, left, right);
    forall c | c in QueueMeeting(edges, crossings, left, right)
      ensures GoodEvent(edges, c, q)
    {
      if c !in crossings {
        NewMeeting(edges, left.id, right.id, q, y, c);
      }
    }
  }

  lemma TakenQueue(edges: Edges, s: State, p: Pos)
    requires OrderInv(edges, s, p) && !NextEvent(edges, s).Nothing?
    ensures var q, t := PosOf(At(edges, NextEvent(edges, s).ev)), Taken(edges, s);
      && ValidEdges(edges) && Sorted(edges, t.crossings)
      && GoodQueue(edges, t.crossings, q) && NotAfter(edges, t.pending, q)
      && q.y == t.y as real && t.y >= 0
  {
    hide Sorted, OrderedAt, CompareEvents, IntegerCrossings, AllQueued, ExactMiddles, CrossInside, LineOrdered,
         ExactCrossing;
    var t := Taken(edges, s);
    TakenWaits(edges, s);
    Arrive(edges, s, p);
    forall x | x in t.pending || x in t.crossings
      ensures Refers(edges, x) && !Precedes(PosOf(At(edges, x)), PosOf(At(edges, NextEvent(edges, s).ev)))
    {
      NextFirst(edges, s, x);
    }
  }

  // ---- An edge starts ----

  lemma KeyOrder(a: seq<real>, b: seq<real>)
    requires |a| > 1 && |b| > 1 && LexCompare(a, b) < 0
    ensures a[0] < b[0] || (a[0] == b[0] && a[1] <= b[1])
  {
  }

  // Of two edges the comparison puts in order at the row of q, one of which starts
  // at q, the first stands left of the second there for good.
  lemma ComparedIsOrdered(a: Active, b: Active, q: Point)
    requires Exact(a, q.y) && Exact(b, q.y) && (a.id == b.id ==> a == b)
    requires a.edge.top == q || b.edge.top == q
    requires CompareEdges(a, b, q.y) < 0
    ensures OrderedAfter(a.edge, b.edge, PosOf(q))
  {
    hide Slope, XAt, CompareEdges;
    CompareEdgesIsLex(a, b, q.y);
    KeyOrder(EdgeKey(a, q.y), EdgeKey(b, q.y));
    XAtEnds(a.edge);
    XAtEnds(b.edge);
  }

  lemma ViewIsExact(edges: Edges, s: State, p: Pos, e: nat)
    requires OrderInv(edges, s, p) && !NextEvent(edges, s).Nothing? && e < |edges|
    requires e in s.line || NextEvent(edges, s).ev == Start(e)
    ensures var y := At(edges, NextEvent(edges, s).ev).y;
      WellFormed(edges, Taken(edges, s)) && Exact(View(edges, Taken(edges, s), e), y)
  {
    hide Sorted, OrderedAt, CompareEvents, IntegerCrossings, AllQueued, LineOrdered, ExactCrossing;
    Arrive(edges, s, p);
    BottomsAhead(edges, s);
    NextIsMinimum(edges, s.pending, s.crossings);
    TakenWaits(edges, s);
  }

  // When a start event comes up every crossing at its point is done.
  lemma Settled(edges: Edges, s: State, p: Pos, e: nat)
    requires OrderInv(edges, s, p) && !NextEvent(edges, s).Nothing? && NextEvent(edges, s).ev == Start(e)
    ensures e < |edges| && ValidEdges(edges) && (forall i :: 0 <= i < |s.line| ==> s.line[i] < |edges|)
    ensures forall i :: 0 <= i && i + 1 < |s.line| ==>
              OrderedAfter(edges[s.line[i]], edges[s.line[i + 1]], PosOf(edges[e].top))
  {
    hide Sorted, OrderedAt, CompareEvents, IntegerCrossings, AllQueued, ExactMiddles, CrossInside, OrderedAfter;
    var q := PosOf(edges[e].top);
    Arrive(edges, s, p);
    forall i | 0 <= i && i + 1 < |s.line|
      ensures OrderedAfter(edges[s.line[i]], edges[s.line[i + 1]], q)
    {
      var l, r := s.line[i], s.line[i + 1];
      assert l in s.line && r in s.line;
      StopsLater(edges, s, e, l);
      StopsLater(edges, s, e, r);
      if CrossInside(edges[l], edges[r]) && Slope(edges[l]) > Slope(edges[r]) {
        CrossingIsQueued(edges, s, p, i);
        var c :| c in s.crossings && c.Crossing? && c.e1 == l && c.e2 == r
            && PosOf(c.at) == CrossPos(edges[l], edges[r]);
        CrossesLater(edges, s, e, c);
      }
      OrderSettled(edges[l], edges[r], q);
    }
  }

  lemma StopsLater(edges: Edges, s: State, e: nat, x: nat)
    requires Inv(edges, s) && !NextEvent(edges, s).Nothing? && NextEvent(edges, s).ev == Start(e) && x in s.line
    ensures e < |edges| && x < |edges| && Precedes(PosOf(edges[e].top), PosOf(edges[x].bottom))
  {
    hide CompareEvents, Sorted;
    NextIsMinimum(edges, s.pending, s.crossings);
    assert Stop(x) in s.pending;
    OrderIsByPoint(edges, Stop(x), Start(e));
    OrderIsByPoint(edges, Start(e), Stop(x));
    CompareEventsTotal(edges, Start(e), Stop(x));
    PrecedesIsCompare(edges[e].top, edges[x].bottom);
  }

  lemma CrossesLater(edges: Edges, s: State, e: nat, c: Event)
    requires Inv(edges, s) && !NextEvent(edges, s).Nothing? && NextEvent(edges, s).ev == Start(e) && c in s.crossings
    ensures e < |edges| && c.Crossing? && PosOf(c.at) != PosOf(edges[e].top)
  {
    hide CompareEvents, Sorted;
    NextIsMinimum(edges, s.pending, s.crossings);
    OrderIsByPoint(edges, c, Start(e));
    CompareEventsTotal(edges, Start(e), c);
    PrecedesIsCompare(c.at, edges[e].top);
  }

  lemma AllAfterIsOrdered(edges: Edges, line: seq<nat>, q: Pos)
    requires ValidEdges(edges) && forall i :: 0 <= i < |line| ==> line[i] < |edges|
    requires forall i :: 0 <= i && i + 1 < |line| ==> OrderedAfter(edges[line[i]], edges[line[i + 1]], q)
    ensures LineOrdered(edges, line, q)
  {
    hide OrderedAfter, OrderedAt;
    forall i, j | 0 <= i < j < |line|
      ensures OrderedAt(edges[line[i]], edges[line[j]], q)
    {
      AfterChain(edges, line, q, i, j);
      AfterIsBefore(edges[line[i]], edges[line[j]], q);
    }
  }

  lemma InsertedAfter(edges: Edges, line: seq<nat>, k: nat, e: nat, q: Pos)
    requires ValidEdges(edges) && e < |edges| && k <= |line| && forall i :: 0 <= i < |line| ==> line[i] < |edges|
    requires forall i :: 0 <= i && i + 1 < |line| ==> OrderedAfter(edges[line[i]], edges[line[i + 1]], q)
    requires k > 0 ==> OrderedAfter(edges[line[k - 1]], edges[e], q)
    requires k < |line| ==> OrderedAfter(edges[e], edges[line[k]], q)
    ensures LineOrdered(edges, InsertAt(line, k, e), q)
  {
    hide OrderedAfter, LineOrdered;
    var r := InsertAt(line, k, e);
    assert forall i :: 0 <= i < |r| ==> r[i] < |edges|;
    forall i | 0 <= i && i + 1 < |r|
      ensures OrderedAfter(edges[r[i]], edges[r[i + 1]], q)
    {
      if i + 1 < k {
        assert OrderedAfter(edges[line[i]], edges[line[i + 1]], q);
      } else if i > k {
        assert OrderedAfter(edges[line[i - 1]], edges[line[i - 1 + 1]], q);
      }
    }
    AllAfterIsOrdered(edges, r, q);
  }

  lemma BracketedAfter(edges: Edges, s: State, p: Pos, e: nat, k: nat)
    requires OrderInv(edges, s, p) && Legal(edges, s, k) && NextEvent(edges, s).ev == Start(e)
    ensures ValidEdges(edges) && e < |edges| && WellFormed(edges, s)
    ensures k > 0 ==> OrderedAfter(edges[s.line[k - 1]], edges[e], PosOf(edges[e].top))
    ensures k < |s.line| ==> OrderedAfter(edges[e], edges[s.line[k]], PosOf(edges[e].top))
  {
    var t := Taken(edges, s);
    ViewIsExact(edges, s, p, e);
    hide OrderInv, OrderedAfter, CompareEdges, CompareEvents, Exact;
    if k > 0 {
      assert s.line[k - 1] in s.line;
      ViewIsExact(edges, s, p, s.line[k - 1]);
      ComparedIsOrdered(View(edges, t, s.line[k - 1]), View(edges, t, e), edges[e].top);
    }
    if k < |s.line| {
      assert s.line[k] in s.line;
      ViewIsExact(edges, s, p, s.line[k]);
      CompareEdgesTotal(View(edges, t, e), View(edges, t, s.line[k]), edges[e].top.y);
      ComparedIsOrdered(View(edges, t, e), View(edges, t, s.line[k]), edges[e].top);
    }
  }

  // The bracketed position is the edge's place in the left-to-right order.
  lemma StartedLine(edges: Edges, s: State, p: Pos, e: nat, k: nat)
    requires OrderInv(edges, s, p) && Legal(edges, s, k) && NextEvent(edges, s).ev == Start(e)
    ensures ValidEdges(edges) && e < |edges|
    ensures LineOrdered(edges, InsertAt(s.line, k, e), PosOf(edges[e].top))
  {
    Settled(edges, s, p, e);
    BracketedAfter(edges, s, p, e, k);
    hide OrderInv, OrderedAfter, LineOrdered;
    InsertedAfter(edges, s.line, k, e, PosOf(edges[e].top));
  }

  lemma InsertedNeighbours(edges: Edges, line: seq<nat>, k: nat, e: nat, q: Pos)
    requires ValidEdges(edges) && k <= |line| && LineOrdered(edges, InsertAt(line, k, e), q)
    ensures e < |edges|
    ensures k > 0 ==> line[k - 1] < |edges| && OrderedBefore(edges[line[k - 1]], edges[e], q)
    ensures k < |line| ==> line[k] < |edges| && OrderedBefore(edges[e], edges[line[k]], q)
  {
    hide OrderedBefore, OrderedAfter;
    var r := InsertAt(line, k, e);
    assert r[k] == e;
    assert k > 0 ==> r[k - 1] == line[k - 1] && OrderedAt(edges[r[k - 1]], edges[r[k]], q);
    assert k < |line| ==> r[k + 1] == line[k] && OrderedAt(edges[r[k]], edges[r[k + 1]], q);
  }

  // The queue after a start: both new meetings are good.
  lemma StartedQueue(edges: Edges, t: State, e: nat, k: nat, q: Pos)
    requires ValidEdges(edges) && AllInRange(edges) && IntegerCrossings(edges)
    requires WellFormed(edges, t) && Sorted(edges, t.crossings) && e < |edges| && k <= |t.line|
    requires GoodQueue(edges, t.crossings, q) && q.y == t.y as real && t.y >= 0
    requires LineOrdered(edges, InsertAt(t.line, k, e), q)
    ensures GoodQueue(edges, Started(edges, t, e, k).crossings, q)
  {
    hide Sorted, OrderedBefore, GoodQueue, QueueMeeting, IntegerCrossings, LineOrdered, AllInRange;
    var left, right := Member(t.line, k - 1), Member(t.line, k);
    InsertedNeighbours(edges, t.line, k, e, q);
    GoodMeeting(edges, t.crossings, left, Present(e), q, t.y);
    QueueMeetingSound(edges, t.crossings, left, Present(e));
    GoodMeeting(edges, QueueMeeting(edges, t.crossings, left, Present(e)), Present(e), right, q, t.y);
  }

  // The parts of the invariant at the state r reached at q.
  lemma Assemble(edges: Edges, r: State, q: Pos)
    requires Inv(edges, r) && AllInRange(edges) && IntegerCrossings(edges)
    requires q.y == r.y as real && r.y >= 0
    requires AllQueued(edges, r.line, r.crossings) && LineOrdered(edges, r.line, q)
    requires TopsPassed(edges, r.line, q) && NotAfter(edges, r.pending, q)
    requires ExactMiddles(edges, r) && GoodQueue(edges, r.crossings, q)
    ensures OrderInv(edges, r, q)
  {
    hide AllQueued, LineOrdered, TopsPassed, ExactMiddles, IntegerCrossings, AllInRange, Sorted, CompareEvents;
    assert forall c :: c in r.crossings ==> GoodEvent(edges, c, q);
  }

  lemma StartedMiddles(edges: Edges, s: State, p: Pos, e: nat, k: nat)
    requires OrderInv(edges, s, p) && Legal(edges, s, k) && NextEvent(edges, s).ev == Start(e)
    ensures e < |edges| && ExactMiddles(edges, Started(edges, Taken(edges, s), e, k))
  {
    TakenWaits(edges, s);
    Arrive(edges, s, p);
    InsertAtMembers(s.line, k, e);
    hide OrderInv, LineOrdered, CompareEdges, CompareEvents, QueueMeeting, XAt, Sorted;
    MiddlesOf(edges, s, p);
    assert Start(e) in s.pending;
  }

  lemma MiddlesOf(edges: Edges, s: State, p: Pos)
    requires OrderInv(edges, s, p)
    ensures Inv(edges, s) && ExactMiddles(edges, s) && p.y == s.y as real
  {
  }

  lemma StartKeepsOrder(edges: Edges, s: State, p: Pos, e: nat, k: nat)
    requires OrderInv(edges, s, p) && Legal(edges, s, k) && NextEvent(edges, s).ev == Start(e)
    ensures e < |edges| && OrderInv(edges, Apply(edges, s, k), PosOf(edges[e].top))
  {
    hide Sorted, GoodQueue, AllQueued, Inv, CompareEdges, CompareEvents, IntegerCrossings, QueueMeeting,
         LineOrdered, ExactMiddles, AllInRange, NotAfter;
    InvOf(edges, s, p);
    hide OrderInv;
    var q, t := PosOf(edges[e].top), Taken(edges, s);
    StepKeepsInv(edges, s, k);
    TakenQueue(edges, s, p);
    StartedMiddles(edges, s, p, e, k);
    Arrive(edges, s, p);
    StartedLine(edges, s, p, e, k);
    QueuedOf(edges, s, p);
    InsertAtMembers(s.line, k, e);
    StartQueued(edges, t, e, k);
    StartedQueue(edges, t, e, k, q);
    Assemble(edges, Apply(edges, s, k), q);
  }

  lemma QueuedOf(edges: Edges, s: State, p: Pos)
    requires OrderInv(edges, s, p) && !NextEvent(edges, s).Nothing?
    ensures AllInRange(edges) && IntegerCrossings(edges) && ValidEdges(edges) && WellFormed(edges, s)
    ensures !NextEvent(edges, s).ev.Crossing? ==> AllQueued(edges, s.line, Taken(edges, s).crossings)
    ensures AllQueued(edges, s.line, s.crossings)
  {
    TakenWaits(edges, s);
  }

  // ---- An edge stops ----

  lemma DeletedLine(edges: Edges, line: seq<nat>, k: nat, q: Pos)
    requires ValidEdges(edges) && k < |line| && LineOrdered(edges, line, q)
    ensures LineOrdered(edges, DeleteAt(line, k), q)
    ensures 0 < k && k + 1 < |line| ==> OrderedBefore(edges[line[k - 1]], edges[line[k + 1]], q)
  {
    hide OrderedBefore, OrderedAfter, OrderedAt;
    var r := DeleteAt(line, k);
    forall i, j | 0 <= i < j < |r|
      ensures r[i] < |edges| && r[j] < |edges| && OrderedAt(edges[r[i]], edges[r[j]], q)
    {
      var i', j' := if i < k then i else i + 1, if j < k then j else j + 1;
      assert r[i] == line[i'] && r[j] == line[j'];
    }
    if 0 < k && k + 1 < |line| {
      OrderedAtIsBefore(edges[line[k - 1]], edges[line[k + 1]], q);
    }
  }

  lemma OrderedAtIsBefore(a: Edge, b: Edge, p: Pos)
    requires Downward(a) && Downward(b) && OrderedAt(a, b, p)
    ensures OrderedBefore(a, b, p)
  {
  }

  lemma StoppedMiddles(edges: Edges, s: State, p: Pos, e: nat, k: nat)
    requires OrderInv(edges, s, p) && Legal(edges, s, k) && NextEvent(edges, s).ev == Stop(e)
    ensures e < |edges| && ExactMiddles(edges, Stopped(edges, Taken(edges, s), k))
  {
    TakenWaits(edges, s);
    Arrive(edges, s, p);
    MiddlesOf(edges, s, p);
    DeleteAtMembers(s.line, k);
    hide OrderInv, LineOrdered, CompareEdges, CompareEvents, QueueMeeting, XAt, Sorted;
  }

  lemma StopKeepsOrder(edges: Edges, s: State, p: Pos, e: nat, k: nat)
    requires OrderInv(edges, s, p) && Legal(edges, s, k) && NextEvent(edges, s).ev == Stop(e)
    ensures e < |edges| && OrderInv(edges, Apply(edges, s, k), PosOf(edges[e].bottom))
  {
    var q, t := PosOf(edges[e].bottom), Taken(edges, s);
    StepKeepsInv(edges, s, k);
    TakenQueue(edges, s, p);
    StoppedMiddles(edges, s, p, e, k);
    Arrive(edges, s, p);
    QueuedOf(edges, s, p);
    DistinctLine(edges, s);
    hide OrderInv, Sorted, GoodQueue, AllQueued, Inv, CompareEdges, CompareEvents, IntegerCrossings, QueueMeeting,
         LineOrdered, ExactMiddles, AllInRange, NotAfter, OrderedBefore;
    DeleteAtMembers(s.line, k);
    DeletedLine(edges, s.line, k, q);
    StopQueued(edges, t, k);
    GoodMeeting(edges, t.crossings, Member(t.line, k - 1), Member(t.line, k + 1), q, t.y);
    Assemble(edges, Apply(edges, s, k), q);
  }

  lemma DistinctLine(edges: Edges, s: State)
    requires Inv(edges, s)
    ensures Distinct(s.line)
  {
  }

  // ---- Two neighbours cross ----

  lemma SwappedLine(edges: Edges, line: seq<nat>, k: nat, q: Pos)
    requires ValidEdges(edges) && k + 1 < |line| && LineOrdered(edges, line, q)
    requires OrderedAt(edges[line[k + 1]], edges[line[k]], q)
    ensures LineOrdered(edges, SwapAt(line, k), q)
    ensures k > 0 ==> OrderedBefore(edges[line[k - 1]], edges[line[k + 1]], q)
    ensures k + 2 < |line| ==> OrderedBefore(edges[line[k]], edges[line[k + 2]], q)
  {
    hide OrderedBefore, OrderedAfter, OrderedAt;
    var r := SwapAt(line, k);
    forall i, j | 0 <= i < j < |r|
      ensures r[i] < |edges| && r[j] < |edges| && OrderedAt(edges[r[i]], edges[r[j]], q)
    {
      var i' := if i == k then k + 1 else if i == k + 1 then k else i;
      var j' := if j == k then k + 1 else if j == k + 1 then k else j;
      assert r[i] == line[i'] && r[j] == line[j'];
      assert i' < j' || (i == k && j == k + 1);
    }
    if k > 0 { OrderedAtIsBefore(edges[line[k - 1]], edges[line[k + 1]], q); }
    if k + 2 < |line| { OrderedAtIsBefore(edges[line[k]], edges[line[k + 2]], q); }
  }

  lemma CrossedOrder(edges: Edges, c: Event)
    requires ValidEdges(edges) && ExactCrossing(edges, c)
    ensures OrderedAt(edges[c.e2], edges[c.e1], PosOf(c.at))
    ensures XAt(edges[c.e1], c.at.y as real) == c.at.x as real
    ensures XAt(edges[c.e2], c.at.y as real) == c.at.x as real
  {
    hide Slope, XAt, CrossX, CrossY;
    CrossOnBoth(edges[c.e1], edges[c.e2]);
  }

  lemma SwappedQueue(edges: Edges, t: State, k: nat, p: Point, q: Pos)
    requires ValidEdges(edges) && AllInRange(edges) && IntegerCrossings(edges)
    requires WellFormed(edges, t) && Sorted(edges, t.crossings) && k + 1 < |t.line|
    requires GoodQueue(edges, t.crossings, q) && q.y == t.y as real && t.y >= 0
    requires k > 0 ==> OrderedBefore(edges[t.line[k - 1]], edges[t.line[k + 1]], q)
    requires k + 2 < |t.line| ==> OrderedBefore(edges[t.line[k]], edges[t.line[k + 2]], q)
    ensures GoodQueue(edges, Swapped(edges, t, k, p).crossings, q)
  {
    hide Sorted, OrderedBefore, GoodQueue, QueueMeeting, IntegerCrossings, AllInRange;
    var left, right := Member(t.line, k - 1), Member(t.line, k + 2);
    var e1, e2 := t.line[k], t.line[k + 1];
    GoodMeeting(edges, t.crossings, left, Present(e2), q, t.y);
    QueueMeetingSound(edges, t.crossings, left, Present(e2));
    GoodMeeting(edges, QueueMeeting(edges, t.crossings, left, Present(e2)), Present(e1), right, q, t.y);
  }

  lemma CrossingOf(edges: Edges, s: State, p: Pos)
    requires OrderInv(edges, s, p) && !NextEvent(edges, s).Nothing? && NextEvent(edges, s).ev.Crossing?
    ensures ValidEdges(edges) && ExactCrossing(edges, NextEvent(edges, s).ev)
    ensures Slope(edges[NextEvent(edges, s).ev.e1]) > Slope(edges[NextEvent(edges, s).ev.e2])
  {
    hide MeetingBelow, Slope, CrossInside, XAt;
    TakenWaits(edges, s);
    CrossingBeforeStops(edges, s, NextEvent(edges, s).ev);
  }

  // Only the pair whose event was taken may lack a queued event.
  lemma OthersQueued(edges: Edges, s: State, p: Pos)
    requires OrderInv(edges, s, p) && !NextEvent(edges, s).Nothing? && NextEvent(edges, s).ev.Crossing?
    ensures WellFormed(edges, s)
    ensures forall i :: 0 <= i && i + 1 < |s.line|
              && !(s.line[i] == NextEvent(edges, s).ev.e1 && s.line[i + 1] == NextEvent(edges, s).ev.e2)
              ==> QueuedPair(edges, Taken(edges, s).crossings, s.line[i], s.line[i + 1])
  {
    hide MeetingBelow, Sorted;
    TakenWaits(edges, s);
    assert forall i :: 0 <= i && i + 1 < |s.line| ==> QueuedPair(edges, s.crossings, s.line[i], s.line[i + 1]);
  }

  lemma TakenMiddles(edges: Edges, s: State, p: Pos)
    requires OrderInv(edges, s, p) && !NextEvent(edges, s).Nothing? && NextEvent(edges, s).ev.Crossing?
    ensures ExactMiddles(edges, Taken(edges, s))
  {
    TakenWaits(edges, s);
    Arrive(edges, s, p);
    MiddlesOf(edges, s, p);
    hide OrderInv, LineOrdered, CompareEvents, XAt, Sorted, Inv;
  }

  lemma MovedMiddles(edges: Edges, t: State, k: nat, at: Point)
    requires ValidEdges(edges) && WellFormed(edges, t) && Lifetimes(edges, t) && ExactMiddles(edges, t)
    requires k + 1 < |t.line| && at.y == t.y
    requires XAt(edges[t.line[k]], at.y as real) == at.x as real
    requires XAt(edges[t.line[k + 1]], at.y as real) == at.x as real
    ensures ExactMiddles(edges, Swapped(edges, t, k, at))
  {
    hide QueueMeeting, XAt;
    SwapAtMembers(t.line, k);
    assert t.line[k] in t.line && t.line[k + 1] in t.line;
  }

  lemma TakenLifetimes(edges: Edges, s: State)
    requires Inv(edges, s) && !NextEvent(edges, s).Nothing? && NextEvent(edges, s).ev.Crossing?
    ensures Lifetimes(edges, Taken(edges, s)) && Taken(edges, s).y == At(edges, NextEvent(edges, s).ev).y
  {
    TakenWaits(edges, s);
  }

  lemma SwappedMiddles(edges: Edges, s: State, p: Pos, k: nat)
    requires OrderInv(edges, s, p) && Legal(edges, s, k) && NextEvent(edges, s).ev.Crossing?
    requires Adjacent(s.line, k, NextEvent(edges, s).ev.e2)
    ensures ExactMiddles(edges, Swapped(edges, Taken(edges, s), k, NextEvent(edges, s).ev.at))
  {
    var c := NextEvent(edges, s).ev;
    TakenMiddles(edges, s, p);
    TakenLifetimes(edges, s);
    CrossingOf(edges, s, p);
    hide OrderInv, CompareEvents, XAt, OrderedAt, ExactCrossing, Slope, ExactMiddles, Lifetimes;
    CrossedOrder(edges, c);
    MovedMiddles(edges, Taken(edges, s), k, c.at);
  }

  lemma InvOf(edges: Edges, s: State, p: Pos)
    requires OrderInv(edges, s, p)
    ensures Inv(edges, s) && AllInRange(edges) && IntegerCrossings(edges)
    ensures !NextEvent(edges, s).Nothing? ==> Refers(edges, NextEvent(edges, s).ev)
  {
  }

  lemma SwapKeepsOrder(edges: Edges, s: State, p: Pos, k: nat)
    requires OrderInv(edges, s, p) && Legal(edges, s, k) && NextEvent(edges, s).ev.Crossing?
    requires Adjacent(s.line, k, NextEvent(edges, s).ev.e2)
    ensures OrderInv(edges, Apply(edges, s, k), PosOf(NextEvent(edges, s).ev.at))
  {
    hide Sorted, GoodQueue, AllQueued, QueuedPair, Inv, CompareEdges, CompareEvents, IntegerCrossings, QueueMeeting,
         LineOrdered, ExactMiddles, AllInRange, NotAfter, OrderedBefore, OrderedAt, ExactCrossing, Slope;
    InvOf(edges, s, p);
    hide OrderInv;
    var c, t := NextEvent(edges, s).ev, Taken(edges, s);
    var q := PosOf(c.at);
    StepKeepsInv(edges, s, k);
    TakenQueue(edges, s, p);
    SwappedMiddles(edges, s, p, k);
    Arrive(edges, s, p);
    QueuedOf(edges, s, p);
    OthersQueued(edges, s, p);
    DistinctLine(edges, s);
    CrossingOf(edges, s, p);
    CrossedOrder(edges, c);
    SwapAtMembers(s.line, k);
    SwappedLine(edges, s.line, k, q);
    SwapQueued(edges, t, k, c.at);
    SwappedQueue(edges, t, k, c.at, q);
    Assemble(edges, Apply(edges, s, k), q);
  }

  // An intersection whose edges are no longer neighbours is dropped.
  lemma SkipKeepsOrder(edges: Edges, s: State, p: Pos, k: nat)
    requires OrderInv(edges, s, p) && Legal(edges, s, k) && NextEvent(edges, s).ev.Crossing?
    requires !Adjacent(s.line, k, NextEvent(edges, s).ev.e2)
    ensures OrderInv(edges, Apply(edges, s, k), PosOf(NextEvent(edges, s).ev.at))
  {
    hide Sorted, GoodQueue, QueuedPair, Inv, CompareEdges, CompareEvents, IntegerCrossings,
         LineOrdered, AllInRange, NotAfter, OrderedBefore, OrderedAt, XAt, ExactMiddles;
    InvOf(edges, s, p);
    hide OrderInv;
    var c, t := NextEvent(edges, s).ev, Taken(edges, s);
    StepKeepsInv(edges, s, k);
    TakenQueue(edges, s, p);
    Arrive(edges, s, p);
    QueuedOf(edges, s, p);
    OthersQueued(edges, s, p);
    DistinctLine(edges, s);
    TakenMiddles(edges, s, p);
    Assemble(edges, t, PosOf(c.at));
  }

  // Every iteration keeps the order, from event point to event point, and the sweep
  // never goes back.
  lemma StepKeepsOrder(edges: Edges, s: State, p: Pos, k: nat)
    requires OrderInv(edges, s, p) && Legal(edges, s, k)
    ensures WellFormed(edges, s)
    ensures OrderInv(edges, Apply(edges, s, k), PosOf(At(edges, NextEvent(edges, s).ev)))
    ensures s.y <= Apply(edges, s, k).y
  {
    hide Inv, LineOrdered, AllQueued, ExactMiddles, IntegerCrossings, AllInRange, CompareEvents, CompareEdges,
         Sorted, Apply;
    Arrive(edges, s, p);
    match NextEvent(edges, s).ev
    case Start(e) => StartKeepsOrder(edges, s, p, e, k);
    case Stop(e) => StopKeepsOrder(edges, s, p, e, k);
    case Crossing(e1, e2, at) =>
      if Adjacent(s.line, k, e2) {
        SwapKeepsOrder(edges, s, p, k);
      } else {
        SkipKeepsOrder(edges, s, p, k);
      }
  }
}
