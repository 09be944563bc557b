// When the machine's sweep is safe: what each iteration keeps, whatever the 32-bit
// differences make of the order of events (cairo-bentley-ottmann.c, lines 690-829,
// 894-927 and 1378-1484).
module MachineSafety {
  import opened Geometry
  import opened Intersect
  import opened Events
  import opened EventQueue
  import opened Sweep
  import opened SweepOrder
  import opened Machine
  import opened MachineSweep
  import opened MachineOrder

  // What its iterations need: edges are on the list exactly between their events, and
  // queued intersections name edges on it.
  ghost predicate Safe(edges: Edges, s: State) {
    && ValidEdges(edges) && AllInRange(edges) && WellFormed(edges, s)
    && Distinct(s.line) && Sorted(edges, s.pending) && Lifetimes(edges, s)
    && forall c :: c in s.crossings ==> SoundCrossing(edges, s, c)
  }

  lemma InvIsSafe(edges: Edges, s: State)
    requires Inv(edges, s) && AllInRange(edges)
    ensures Safe(edges, s)
  {
  }

  predicate Names(c: Event, e: nat) {
    c.Crossing? && (c.e1 == e || c.e2 == e)
  }

  // The next event stops an edge that a queued intersection names.
  ghost predicate StopsTooSoon(edges: Edges, s: State)
    requires WellFormed(edges, s)
  {
    var d := MachineNext(edges, s);
    !d.Nothing? && d.ev.Stop? && exists c :: c in s.crossings && Names(c, d.ev.edge)
  }

  // That takes a row and a difference of columns that does not fit.
  lemma StopsTooSoonExactly(edges: Edges, s: State, e: nat)
    requires Safe(edges, s) && s.pending != [] && s.pending[0] == Stop(e)
    requires s.crossings != [] && Names(s.crossings[0], e)
    ensures var c := s.crossings[0];
      StopsTooSoon(edges, s) <==> c.at.y == edges[e].bottom.y && edges[e].bottom.x - c.at.x >= TWO31
  {
    hide MachineCompareEvents, CompareEvents, MeetingBelow, Sorted, Lifetimes;
    var c := s.crossings[0];
    assert c in s.crossings && Stop(e) in s.pending;
    SoundIsStorable(edges, s, c);
    CrossingBeforeStops(edges, s, c);
    CompareEventsTotal(edges, c, Stop(e));
    SameOrderExactly(edges, Stop(e), c);
  }

  lemma SoundIsStorable(edges: Edges, s: State, c: Event)
    requires ValidEdges(edges) && AllInRange(edges) && SoundCrossing(edges, s, c)
    ensures Refers(edges, c) && Storable(c.at)
  {
    ReportedIsStorable(edges[c.e1], edges[c.e2]);
  }

  lemma InsertedMembers(edges: Edges, q: seq<Event>, ev: Event, r: seq<Event>)
    requires AllRefer(edges, q) && Refers(edges, ev) && MachineInserted(edges, q, ev, r)
    ensures AllRefer(edges, r)
    ensures forall x :: x in q ==> x in r
    ensures forall x :: x in r ==> x in q || x == ev
  {
    hide MachineCompareEvents;
    if r != q {
      var k: nat :| MachinePlace(edges, q, ev, k) && r == q[..k] + [ev] + q[k..];
      JoinedMembers(q, ev, k);
    }
  }

  // The queue gains at most what is reported of the two neighbours.
  lemma QueuedMembers(edges: Edges, q: seq<Event>, left: Neighbour, right: Neighbour, r: seq<Event>)
    requires AllRefer(edges, q) && KnownNeighbour(edges, left) && KnownNeighbour(edges, right)
    requires MachineQueued(edges, q, left, right, r)
    ensures AllRefer(edges, r) && forall x :: x in q ==> x in r
    ensures forall x :: x in r ==> x in q || Reported(edges, left, right, x)
  {
    hide MeetingBelow, MachineInserted;
    if left.Present? && right.Present? && MeetingBelow(edges[left.id], edges[right.id]).Meet? {
      InsertedMembers(edges, q, Crossing(left.id, right.id, MeetingBelow(edges[left.id], edges[right.id]).at), r);
    }
  }

  predicate Reported(edges: Edges, left: Neighbour, right: Neighbour, c: Event)
    requires KnownNeighbour(edges, left) && KnownNeighbour(edges, right)
  {
    && left.Present? && right.Present? && c.Crossing? && c.e1 == left.id && c.e2 == right.id
    && MeetingBelow(edges[c.e1], edges[c.e2]) == Meet(c.at)
  }

  lemma QueuedTwiceMembers(edges: Edges, q: seq<Event>, a: Neighbour, b: Neighbour,
                           c: Neighbour, d: Neighbour, r: seq<Event>)
    requires AllRefer(edges, q) && KnownNeighbour(edges, a) && KnownNeighbour(edges, b)
    requires KnownNeighbour(edges, c) && KnownNeighbour(edges, d)
    requires MachineQueuedTwice(edges, q, a, b, c, d, r)
    ensures AllRefer(edges, r) && forall x :: x in q ==> x in r
    ensures forall x :: x in r ==> x in q || Reported(edges, a, b, x) || Reported(edges, c, d, x)
  {
    hide MachineQueued, Reported;
    var m :| AllRefer(edges, m) && MachineQueued(edges, q, a, b, m) && MachineQueued(edges, m, c, d, r);
    QueuedMembers(edges, q, a, b, m);
    QueuedMembers(edges, m, c, d, r);
  }

  lemma TakenAsWaits(edges: Edges, s: State)
    requires Safe(edges, s) && !MachineNext(edges, s).Nothing?
    ensures var d := MachineNext(edges, s);
      var t := TakenAs(edges, s, d);
      && Sorted(edges, t.pending)
      && (d.Pending? <==> !d.ev.Crossing?)
      && (forall x :: x in t.pending <==> x in s.pending && x != d.ev)
      && (forall x :: x in t.crossings ==> x in s.crossings)
      && (d.Pending? ==> t.crossings == s.crossings)
      && (d.ev in s.pending || d.ev in s.crossings)
  {
    hide CompareEvents, MachineCompareEvents, MeetingBelow;
    if MachineNext(edges, s).Pending? {
      NotInTail(edges, s.pending);
      assert s.pending[0] in s.pending;
    } else {
      assert s.crossings[0] in s.crossings;
    }
  }

  lemma StartKeepsSafe(edges: Edges, s: State, e: nat, k: nat, r: State)
    requires Safe(edges, s) && MachineStepAt(edges, s, k, r) && MachineNext(edges, s).ev == Start(e)
    ensures Safe(edges, r)
  {
    hide MeetingBelow, CompareEvents, MachineCompareEvents, MachineCompareEdges, Sorted, MachineQueuedTwice,
         MachineNext;
    var t := TakenAs(edges, s, MachineNext(edges, s));
    TakenAsWaits(edges, s);
    InsertAtMembers(t.line, k, e);
    QueuedTwiceMembers(edges, t.crossings, Member(t.line, k - 1), Present(e),
                       Present(e), Member(t.line, k), r.crossings);
    assert Start(e) in s.pending;
  }

  lemma SwapKeepsSafe(edges: Edges, s: State, k: nat, r: State)
    requires Safe(edges, s) && MachineStepAt(edges, s, k, r) && MachineNext(edges, s).ev.Crossing?
    ensures Safe(edges, r)
  {
    hide MeetingBelow, CompareEvents, MachineCompareEvents, MachineCompareEdges, Sorted, MachineQueuedTwice,
         MachineNext;
    var t := TakenAs(edges, s, MachineNext(edges, s));
    TakenAsWaits(edges, s);
    if Adjacent(t.line, k, MachineNext(edges, s).ev.e2) {
      SwapAtMembers(t.line, k);
      QueuedTwiceMembers(edges, t.crossings, Member(t.line, k - 1), Present(t.line[k + 1]),
                         Present(t.line[k]), Member(t.line, k + 2), r.crossings);
    }
  }

  lemma StopKeepsSafeExactly(edges: Edges, s: State, e: nat, k: nat, r: State)
    requires Safe(edges, s) && MachineStepAt(edges, s, k, r) && MachineNext(edges, s).ev == Stop(e)
    ensures Safe(edges, r) <==> !StopsTooSoon(edges, s)
  {
    hide MeetingBelow, CompareEvents, MachineCompareEvents, MachineCompareEdges, Sorted, MachineQueued, MachineNext;
    var t := TakenAs(edges, s, MachineNext(edges, s));
    TakenAsWaits(edges, s);
    DeleteAtMembers(t.line, k);
    QueuedMembers(edges, t.crossings, Member(t.line, k - 1), Member(t.line, k + 1), r.crossings);
    if StopsTooSoon(edges, s) {
      var c :| c in s.crossings && Names(c, e);
      assert c in r.crossings;
    }
  }

  lemma StepKeepsSafeExactly(edges: Edges, s: State, r: State)
    requires Safe(edges, s) && MachineStep(edges, s, r)
    ensures Safe(edges, r) <==> !StopsTooSoon(edges, s)
  {
    hide Safe, MachineStepAt, MachineNext;
    assert WellFormed(edges, s) by { SafeIsFormed(edges, s); }
    var k: nat :| MachineStepAt(edges, s, k, r);
    assert !MachineNext(edges, s).Nothing? by { StepHasEvent(edges, s, k, r); }
    match MachineNext(edges, s).ev
    case Start(e) => StartKeepsSafe(edges, s, e, k, r);
    case Stop(e) => StopKeepsSafeExactly(edges, s, e, k, r);
    case Crossing(_, _, _) => SwapKeepsSafe(edges, s, k, r);
  }

  lemma SafeIsFormed(edges: Edges, s: State)
    requires Safe(edges, s)
    ensures WellFormed(edges, s)
  {
  }

  lemma StepHasEvent(edges: Edges, s: State, k: nat, r: State)
    requires WellFormed(edges, s) && MachineStepAt(edges, s, k, r)
    ensures !MachineNext(edges, s).Nothing?
  {
    hide MachineNext, MachineStarted, MachineStopped, MachineSwapped, MachineInsertPosition;
  }

  lemma InitIsSafe(edges: Edges)
    requires ValidEdges(edges) && AllInRange(edges)
    ensures Safe(edges, Init(edges))
  {
    hide Sorted, Sort;
    InitInv(edges);
  }

  lemma {:induction false} ReachedSafely(edges: Edges, run: seq<State>, i: nat)
    requires ValidEdges(edges) && AllInRange(edges) && MachineRun(edges, run) && i < |run|
    requires forall j :: 0 <= j < i ==> WellFormed(edges, run[j]) && !StopsTooSoon(edges, run[j])
    ensures Safe(edges, run[i])
  {
    hide Safe, MachineStep, StopsTooSoon, Init;
    if i == 0 {
      InitIsSafe(edges);
    } else {
      ReachedSafely(edges, run, i - 1);
      assert MachineStep(edges, run[i - 1], run[i]);
      StepKeepsSafeExactly(edges, run[i - 1], run[i]);
    }
  }

  // A run of the machine's sweep is safe all along if and only if no iteration but its
  // last state's stops an edge that a queued intersection still names.
  lemma MachineRunIsSafeExactly(edges: Edges, run: seq<State>)
    requires ValidEdges(edges) && AllInRange(edges) && MachineRun(edges, run)
    ensures (forall i :: 0 <= i < |run| ==> Safe(edges, run[i])) <==>
              forall i :: 0 <= i < |run| - 1 ==> WellFormed(edges, run[i]) && !StopsTooSoon(edges, run[i])
  {
    hide Safe, MachineStep, StopsTooSoon, Init, WellFormed;
    if forall i :: 0 <= i < |run| ==> Safe(edges, run[i]) {
      forall i | 0 <= i < |run| - 1 ensures WellFormed(edges, run[i]) && !StopsTooSoon(edges, run[i]) {
        var j := i + 1;
        assert MachineStep(edges, run[j - 1], run[j]);
        SafeIsFormed(edges, run[i]);
        StepKeepsSafeExactly(edges, run[i], run[j]);
      }
    }
    if forall i :: 0 <= i < |run| - 1 ==> WellFormed(edges, run[i]) && !StopsTooSoon(edges, run[i]) {
      forall i | 0 <= i < |run| ensures Safe(edges, run[i]) {
        ReachedSafely(edges, run, i);
      }
    }
  }

  // ---- A safe state is never stuck, however the machine orders events ----

  lemma {:induction false} PlaceExists(edges: Edges, q: seq<Event>, ev: Event, from: nat) returns (r: seq<Event>)
    requires AllRefer(edges, q) && Refers(edges, ev) && from <= |q|
    requires from > 0 ==> MachineCompareEvents(edges, q[from - 1], ev) < 0
    ensures MachineInserted(edges, q, ev, r)
    decreases |q| - from
  {
    hide MachineCompareEvents;
    if from == |q| || MachineCompareEvents(edges, q[from], ev) > 0 {
      r := q[..from] + [ev] + q[from..];
      assert MachinePlace(edges, q, ev, from);
    } else if MachineCompareEvents(edges, q[from], ev) == 0 {
      r := q;
    } else {
      r := PlaceExists(edges, q, ev, from + 1);
    }
  }

  lemma CanQueue(edges: Edges, q: seq<Event>, left: Neighbour, right: Neighbour) returns (r: seq<Event>)
    requires AllRefer(edges, q) && KnownNeighbour(edges, left) && KnownNeighbour(edges, right)
    ensures AllRefer(edges, r) && MachineQueued(edges, q, left, right, r)
  {
    hide MeetingBelow, MachineInserted;
    r := q;
    if left.Present? && right.Present? && MeetingBelow(edges[left.id], edges[right.id]).Meet? {
      r := PlaceExists(edges, q, Crossing(left.id, right.id, MeetingBelow(edges[left.id], edges[right.id]).at), 0);
    }
    QueuedMembers(edges, q, left, right, r);
  }

  lemma CanQueueTwice(edges: Edges, q: seq<Event>, a: Neighbour, b: Neighbour, c: Neighbour, d: Neighbour)
    returns (r: seq<Event>)
    requires AllRefer(edges, q) && KnownNeighbour(edges, a) && KnownNeighbour(edges, b)
    requires KnownNeighbour(edges, c) && KnownNeighbour(edges, d)
    ensures MachineQueuedTwice(edges, q, a, b, c, d, r)
  {
    hide MachineQueued;
    var m := CanQueue(edges, q, a, b);
    r := CanQueue(edges, m, c, d);
    assert AllRefer(edges, m) && MachineQueued(edges, q, a, b, m) && MachineQueued(edges, m, c, d, r);
  }

  // An edge whose stop is the first event pending has started.
  lemma StoppedIsOnLine(edges: Edges, s: State, e: nat)
    requires Safe(edges, s) && s.pending != [] && s.pending[0] == Stop(e)
    ensures e in s.line
  {
    hide CompareEvents, MeetingBelow;
    assert Stop(e) in s.pending && e < |edges|;
    if Start(e) in s.pending {
      var i :| 0 <= i < |s.pending| && s.pending[i] == Start(e);
      StartBeforeStop(edges, e);
      CompareEventsTotal(edges, Start(e), Stop(e));
      assert false;
    }
  }

  lemma SafeIsNotStuck(edges: Edges, s: State) returns (r: State)
    requires Safe(edges, s) && !Done(s)
    ensures MachineStep(edges, s, r)
  {
    hide MachineCompareEvents, MachineCompareEdges, CompareEdges, MachineQueued, MachineQueuedTwice, MeetingBelow,
         InsertPosition, MachineInsertPosition, Sorted, AllInRange, Names;
    TakenAsWaits(edges, s);
    var d := MachineNext(edges, s);
    var t := TakenAs(edges, s, d);
    var k: nat;
    match d.ev {
    case Start(e) =>
      k := PositionExists(edges, t, e, 0);
      PositionsAgree(edges, t, e, k);
      assert k <= |t.line| by { PlaceIsOnLine(edges, t, e, k); }
      var q := CanQueueTwice(edges, t.crossings, Member(t.line, k - 1), Present(e), Present(e), Member(t.line, k));
      r := t.(line := InsertAt(t.line, k, e), crossings := q);
    case Stop(e) =>
      StoppedIsOnLine(edges, s, e);
      k :| 0 <= k < |s.line| && s.line[k] == e;
      var q := CanQueue(edges, t.crossings, Member(t.line, k - 1), Member(t.line, k + 1));
      r := t.(line := DeleteAt(t.line, k), crossings := q);
    case Crossing(e1, e2, p) =>
      k :| 0 <= k < |s.line| && s.line[k] == e1;
      r := t;
      if Adjacent(t.line, k, e2) {
        var q := CanQueueTwice(edges, t.crossings, Member(t.line, k - 1), Present(e2),
                               Present(e1), Member(t.line, k + 2));
        r := t.(line := SwapAt(t.line, k), middle := t.middle[e1 := p][e2 := p], count := t.count + 1, crossings := q);
      }
    }
    StepAtIsStep(edges, s, k, r);
  }

  lemma StepAtIsStep(edges: Edges, s: State, k: nat, r: State)
    requires WellFormed(edges, s) && MachineStepAt(edges, s, k, r)
    ensures MachineStep(edges, s, r)
  {
    hide MachineStepAt;
  }

  lemma PlaceIsOnLine(edges: Edges, t: State, e: nat, k: nat)
    requires WellFormed(edges, t) && e < |edges| && InsertPosition(edges, t, e, k)
    ensures k <= |t.line|
  {
  }

  // ---- What goes wrong takes two waiting events that do not fit ----

  ghost predicate AllStorable(edges: Edges, q: seq<Event>) {
    forall x :: x in q ==> Refers(edges, x) && Storable(At(edges, x))
  }

  // Only equal events compare equal, so nothing reported is lost.
  lemma InsertedIsThere(edges: Edges, q: seq<Event>, ev: Event, r: seq<Event>)
    requires ValidEdges(edges) && AllInRange(edges) && AllRefer(edges, q) && AllStorable(edges, q)
    requires Refers(edges, ev) && Storable(At(edges, ev)) && MachineInserted(edges, q, ev, r)
    ensures ev in r
  {
    hide MachineCompareEvents, CompareEvents;
    if k: nat :| MachinePlace(edges, q, ev, k) && r == q[..k] + [ev] + q[k..] {
      JoinedMembers(q, ev, k);
    } else {
      var k :| 0 <= k < |q| && MachineCompareEvents(edges, q[k], ev) == 0;
      assert q[k] in q;
      EqualIsEqual(edges, q[k], ev);
    }
  }

  lemma EqualIsEqual(edges: Edges, a: Event, b: Event)
    requires ValidEdges(edges) && AllInRange(edges) && Refers(edges, a) && Refers(edges, b)
    requires Storable(At(edges, a)) && Storable(At(edges, b)) && MachineCompareEvents(edges, a, b) == 0
    ensures a == b
  {
    SameOrderExactly(edges, a, b);
    ZeroOnlyForEqual(At(edges, a), At(edges, b));
    CompareEventsTotal(edges, a, b);
    assert At(edges, a) == At(edges, b) by { ZeroPoints(edges, a, b); }
    hide MachineCompareEvents, CompareEvents;
  }

  lemma ZeroPoints(edges: Edges, a: Event, b: Event)
    requires Refers(edges, a) && Refers(edges, b) && MachineCompareEvents(edges, a, b) == 0
    ensures MachineComparePoints(At(edges, a), At(edges, b)) == 0
  {
    hide MachineComparePoints;
  }

  lemma ReportedIsQueued(edges: Edges, q: seq<Event>, left: Neighbour, right: Neighbour, r: seq<Event>)
    requires ValidEdges(edges) && AllInRange(edges) && AllStorable(edges, q)
    requires AllRefer(edges, q) && KnownNeighbour(edges, left) && KnownNeighbour(edges, right)
    requires MachineQueued(edges, q, left, right, r)
    ensures forall x :: x in r <==> x in q || Reported(edges, left, right, x)
    ensures AllRefer(edges, r) && AllStorable(edges, r)
  {
    hide MeetingBelow, MachineInserted, Storable;
    QueuedMembers(edges, q, left, right, r);
    if left.Present? && right.Present? && MeetingBelow(edges[left.id], edges[right.id]).Meet? {
      var c := Crossing(left.id, right.id, MeetingBelow(edges[left.id], edges[right.id]).at);
      ReportedIsStorable(edges[left.id], edges[right.id]);
      InsertedIsThere(edges, q, c, r);
    }
  }

  lemma BothReportedAreQueued(edges: Edges, q: seq<Event>, a: Neighbour, b: Neighbour,
                              c: Neighbour, d: Neighbour, r: seq<Event>)
    requires ValidEdges(edges) && AllInRange(edges) && AllStorable(edges, q) && AllRefer(edges, q)
    requires KnownNeighbour(edges, a) && KnownNeighbour(edges, b)
    requires KnownNeighbour(edges, c) && KnownNeighbour(edges, d)
    requires MachineQueuedTwice(edges, q, a, b, c, d, r)
    ensures forall x :: x in r <==> x in q || Reported(edges, a, b, x) || Reported(edges, c, d, x)
  {
    hide MachineQueued, Reported, AllInRange, AllStorable;
    var m :| AllRefer(edges, m) && MachineQueued(edges, q, a, b, m) && MachineQueued(edges, m, c, d, r);
    ReportedIsQueued(edges, q, a, b, m);
    ReportedIsQueued(edges, m, c, d, r);
  }

  lemma BothMeetingsReported(edges: Edges, q: seq<Event>, a: Neighbour, b: Neighbour, c: Neighbour, d: Neighbour)
    requires ValidEdges(edges) && Sorted(edges, q)
    requires KnownNeighbour(edges, a) && KnownNeighbour(edges, b)
    requires KnownNeighbour(edges, c) && KnownNeighbour(edges, d)
    ensures var r := QueueMeeting(edges, QueueMeeting(edges, q, a, b), c, d);
      forall x :: x in r <==> x in q || Reported(edges, a, b, x) || Reported(edges, c, d, x)
  {
    hide MeetingBelow, QueueMeeting, Sorted;
    QueueMeetingSound(edges, q, a, b);
    QueueMeetingSound(edges, QueueMeeting(edges, q, a, b), c, d);
  }

  lemma TakenStorable(edges: Edges, s: State)
    requires Inv(edges, s) && AllInRange(edges) && !NextEvent(edges, s).Nothing?
    ensures AllStorable(edges, Taken(edges, s).crossings)
  {
    hide MeetingBelow, Storable, CompareEvents;
    TakenWaits(edges, s);
    forall c | c in s.crossings ensures Refers(edges, c) && Storable(At(edges, c)) {
      SoundIsStorable(edges, s, c);
    }
  }

  // Whatever the exact iteration queues, the machine's queues too.
  lemma QueuesAlike(edges: Edges, s: State, k: nat, r: State)
    requires Inv(edges, s) && AllInRange(edges) && HeadsFit(edges, s) && MachineStepAt(edges, s, k, r)
    ensures Legal(edges, s, k) && forall x :: x in Apply(edges, s, k).crossings ==> x in r.crossings
  {
    hide InsertPosition, MachineInsertPosition, MachineQueuedTwice, MachineQueued, QueueMeeting, Sorted, Reported,
         CompareEvents, MachineCompareEvents, MeetingBelow, Lifetimes, HeadsFit, MachineNext, NextEvent, AllInRange,
         AllStorable;
    NextAgrees(edges, s);
    var t := Taken(edges, s);
    TakenWaits(edges, s);
    TakenStorable(edges, s);
    match NextEvent(edges, s).ev
    case Start(e) =>
      PositionsAgree(edges, t, e, k);
      var a, b := Member(t.line, k - 1), Member(t.line, k);
      BothReportedAreQueued(edges, t.crossings, a, Present(e), Present(e), b, r.crossings);
      BothMeetingsReported(edges, t.crossings, a, Present(e), Present(e), b);
    case Stop(e) =>
      var a, b := Member(t.line, k - 1), Member(t.line, k + 1);
      ReportedIsQueued(edges, t.crossings, a, b, r.crossings);
      OneMeetingReported(edges, t.crossings, a, b);
    case Crossing(e1, e2, p) =>
      if Adjacent(t.line, k, e2) {
        var a, b := Member(t.line, k - 1), Member(t.line, k + 2);
        BothReportedAreQueued(edges, t.crossings, a, Present(e2), Present(e1), b, r.crossings);
        BothMeetingsReported(edges, t.crossings, a, Present(e2), Present(e1), b);
      }
  }

  lemma OneMeetingReported(edges: Edges, q: seq<Event>, a: Neighbour, b: Neighbour)
    requires ValidEdges(edges) && Sorted(edges, q) && KnownNeighbour(edges, a) && KnownNeighbour(edges, b)
    ensures forall x :: x in QueueMeeting(edges, q, a, b) <==> x in q || Reported(edges, a, b, x)
  {
    hide MeetingBelow, QueueMeeting, Sorted;
    QueueMeetingSound(edges, q, a, b);
  }

  lemma FittingStepIsStep(edges: Edges, s: State, r: State)
    requires Inv(edges, s) && AllInRange(edges) && WaitingFit(edges, s) && WaitingFit(edges, r)
    requires MachineStep(edges, s, r)
    ensures Step(edges, s, r)
  {
    hide Inv, MachineStepAt, Legal, Apply, PointsFit, QueueFits, AllInRange;
    assert HeadsFit(edges, s) by {
      if s.pending != [] && s.crossings != [] { assert Waiting(s, s.pending[0]) && Waiting(s, s.crossings[0]); }
    }
    var k: nat :| MachineStepAt(edges, s, k, r);
    QueuesAlike(edges, s, k, r);
    StepKeepsInv(edges, s, k);
    var x := Apply(edges, s, k);
    SoundPartFits(edges, x, r);
    StepsAgree(edges, s, k, r);
    StepOf(edges, s, k);
  }

  lemma SoundPartFits(edges: Edges, x: State, r: State)
    requires Inv(edges, x) && AllInRange(edges) && WaitingFit(edges, r)
    requires forall c :: c in x.crossings ==> c in r.crossings
    ensures QueueFits(edges, x.crossings)
  {
    hide MeetingBelow, PointsFit, Storable, Sorted, Lifetimes, AllInRange;
    forall a | a in x.crossings ensures Refers(edges, a) && Storable(At(edges, a)) {
      SoundIsStorable(edges, x, a);
    }
    forall a, b | a in x.crossings && b in x.crossings ensures PointsFit(At(edges, a), At(edges, b)) {
      assert Waiting(r, a) && Waiting(r, b);
    }
  }

  // A run of the machine's sweep in which any two waiting events fit is one in exact
  // order. What goes wrong therefore takes two that wait at one time on one row, in
  // columns 2^31 or more apart.
  lemma {:induction false} FittingRunIsRun(edges: Edges, run: seq<State>, i: nat)
    requires ValidEdges(edges) && AllInRange(edges) && MachineRun(edges, run) && i < |run|
    requires forall j :: 0 <= j <= i ==> WaitingFit(edges, run[j])
    ensures Run(edges, run[..i + 1]) && Inv(edges, run[i])
  {
    hide Inv, Step, MachineStep, WaitingFit, AllInRange, Init;
    if i == 0 {
      InitInv(edges);
    } else {
      FittingRunIsRun(edges, run, i - 1);
      assert MachineStep(edges, run[i - 1], run[i]);
      FittingStepIsStep(edges, run[i - 1], run[i]);
      var done := run[..i + 1];
      assert done[..i] == run[..i - 1 + 1];
      RunIsPrefixAndStep(edges, done);
      ReachableInv(edges, done, i);
    }
  }
}
