// The sweep as a state machine over array positions: the active edges from left
// to right, the waiting events, the stored intersection points and the current
// row (cairo-bentley-ottmann.c, lines 1346-1499). Nothing here assumes that
// stored intersection points are exact.
module Sweep {
  import opened Counting
  import opened Geometry
  import opened Intersect
  import opened Events
  import opened EventQueue

  datatype State = State(
    line: seq<nat>,           // head to tail of the active list
    pending: seq<Event>,      // start and stop events not yet delivered
    crossings: seq<Event>,    // the intersection queue
    middle: seq<Point>,       // edge->middle
    y: int,                   // current_y
    count: nat)               // intersection_count

  function Init(edges: Edges): State {
    StartStopsRefer(edges);
    State([], Sort(edges, StartStops(|edges|)), [], Tops(edges), 0, 0)
  }

  function Tops(edges: Edges): seq<Point> {
    seq(|edges|, i requires 0 <= i < |edges| => edges[i].top)
  }

  lemma StartStopsRefer(edges: Edges)
    ensures AllRefer(edges, StartStops(|edges|))
  {
    StartStopsMembers(|edges|);
    forall i | 0 <= i < |StartStops(|edges|)| ensures Refers(edges, StartStops(|edges|)[i]) {
      assert StartStops(|edges|)[i] in StartStops(|edges|);
    }
  }

  // Every index in the state is an edge.
  predicate WellFormed(edges: Edges, s: State) {
    && (forall i :: 0 <= i < |s.line| ==> s.line[i] < |edges|)
    && AllRefer(edges, s.pending) && AllRefer(edges, s.crossings)
    && |s.middle| == |edges|
  }

  function NextEvent(edges: Edges, s: State): Dequeued
    requires WellFormed(edges, s)
  {
    Next(edges, s.pending, s.crossings)
  }

  function View(edges: Edges, s: State, e: nat): Active
    requires WellFormed(edges, s) && e < |edges|
  {
    Active(edges[e], s.middle[e], e)
  }

  // ---- _cairo_bo_event_queue_insert_if_intersect_below_current_y ----

  datatype Neighbour = Absent | Present(id: nat)

  // The neighbour at a position of the active list, none beyond its ends.
  function Member(line: seq<nat>, i: int): Neighbour {
    if 0 <= i < |line| then Present(line[i]) else Absent
  }

  predicate KnownNeighbour(edges: Edges, n: Neighbour) {
    n.Present? ==> n.id < |edges|
  }

  function QueueMeeting(edges: Edges, crossings: seq<Event>, left: Neighbour, right: Neighbour): (r: seq<Event>)
    requires AllRefer(edges, crossings) && KnownNeighbour(edges, left) && KnownNeighbour(edges, right)
    ensures AllRefer(edges, r)
  {
    if left.Absent? || right.Absent? then crossings
    else
      match MeetingBelow(edges[left.id], edges[right.id])
      case Meet(p) => EventQueue.Insert(edges, crossings, Crossing(left.id, right.id, p))
      case _ => crossings
  }

  // ---- The three cases of the main loop ----

  function InsertAt(line: seq<nat>, k: nat, e: nat): seq<nat>
    requires k <= |line|
  {
    line[..k] + [e] + line[k..]
  }

  function DeleteAt(line: seq<nat>, k: nat): seq<nat>
    requires k < |line|
  {
    line[..k] + line[k + 1..]
  }

  function SwapAt(line: seq<nat>, k: nat): seq<nat>
    requires k + 1 < |line|
  {
    line[k := line[k + 1]][k + 1 := line[k]]
  }

  // The state once an event has been removed from its queue and its row made current.
  function Taken(edges: Edges, s: State): (t: State)
    requires WellFormed(edges, s) && !NextEvent(edges, s).Nothing?
    ensures WellFormed(edges, t)
  {
    var d := NextEvent(edges, s);
    var y := At(edges, d.ev).y;
    if d.Pending? then s.(pending := s.pending[1..], y := y)
    else s.(crossings := s.crossings[1..], y := y)
  }

  // Where the skip list may put an edge: after an element that compares less (or
  // first) and before one that compares greater (or last).
  predicate InsertPosition(edges: Edges, s: State, e: nat, k: nat)
    requires WellFormed(edges, s) && e < |edges|
  {
    && k <= |s.line|
    && (k > 0 ==> CompareEdges(View(edges, s, s.line[k - 1]), View(edges, s, e), s.y) < 0)
    && (k < |s.line| ==> CompareEdges(View(edges, s, s.line[k]), View(edges, s, e), s.y) > 0)
  }

  // k is the position an edge is inserted at, or the position of the (first) edge of
  // the event. The C code follows pointers of that edge, which are meaningful only
  // while it is on the list: an event of an edge elsewhere has no legal step.
  predicate Legal(edges: Edges, s: State, k: nat)
    requires WellFormed(edges, s)
  {
    var d := NextEvent(edges, s);
    && !d.Nothing?
    && match d.ev
       case Start(e) => e !in s.line && InsertPosition(edges, Taken(edges, s), e, k)
       case Stop(e) => k < |s.line| && s.line[k] == e
       case Crossing(e1, e2, _) => k < |s.line| && s.line[k] == e1 && e2 in s.line
  }

  // "skip this intersection if its edges are not adjacent"
  predicate Adjacent(line: seq<nat>, k: nat, e2: nat) {
    k + 1 < |line| && line[k + 1] == e2
  }

  function Started(edges: Edges, t: State, e: nat, k: nat): (r: State)
    requires WellFormed(edges, t) && e < |edges| && k <= |t.line|
    ensures WellFormed(edges, r)
  {
    var line := InsertAt(t.line, k, e);
    var q := QueueMeeting(edges, t.crossings, Member(t.line, k - 1), Present(e));
    t.(line := line, crossings := QueueMeeting(edges, q, Present(e), Member(t.line, k)))
  }

  function Stopped(edges: Edges, t: State, k: nat): (r: State)
    requires WellFormed(edges, t) && k < |t.line|
    ensures WellFormed(edges, r)
  {
    t.(line := DeleteAt(t.line, k),
       crossings := QueueMeeting(edges, t.crossings, Member(t.line, k - 1), Member(t.line, k + 1)))
  }

  // e1 is at position k and e2 follows it; afterwards e2 is left of e1.
  function Swapped(edges: Edges, t: State, k: nat, p: Point): (r: State)
    requires WellFormed(edges, t) && k + 1 < |t.line|
    ensures WellFormed(edges, r)
  {
    var e1, e2 := t.line[k], t.line[k + 1];
    var q := QueueMeeting(edges, t.crossings, Member(t.line, k - 1), Present(e2));
    t.(line := SwapAt(t.line, k), middle := t.middle[e1 := p][e2 := p], count := t.count + 1,
       crossings := QueueMeeting(edges, q, Present(e1), Member(t.line, k + 2)))
  }

  function Apply(edges: Edges, s: State, k: nat): (r: State)
    requires WellFormed(edges, s) && Legal(edges, s, k)
    ensures WellFormed(edges, r)
  {
    var t := Taken(edges, s);
    match NextEvent(edges, s).ev
    case Start(e) => Started(edges, t, e, k)
    case Stop(e) => Stopped(edges, t, k)
    case Crossing(e1, e2, p) => if Adjacent(t.line, k, e2) then Swapped(edges, t, k, p) else t
  }

  ghost predicate Step(edges: Edges, s: State, r: State) {
    WellFormed(edges, s) && exists k: nat :: Legal(edges, s, k) && r == Apply(edges, s, k)
  }

  // A run: the states after each iteration of the loop.
  ghost predicate Run(edges: Edges, run: seq<State>) {
    && run != [] && run[0] == Init(edges)
    && forall i :: 0 < i < |run| ==> Step(edges, run[i - 1], run[i])
  }

  predicate Done(s: State) {
    s.pending == [] && s.crossings == []
  }

  // ---- What every reachable state keeps ----

  predicate Distinct<T(==)>(s: seq<T>) {
    forall i, j :: 0 <= i < j < |s| ==> s[i] != s[j]
  }

  // An edge is on the line exactly between its start and its stop.
  predicate Lifetimes(edges: Edges, s: State) {
    && (forall x :: x in s.pending ==> !x.Crossing?)
    && (forall e :: 0 <= e < |edges| && Start(e) in s.pending ==> Stop(e) in s.pending)
    && (forall e :: 0 <= e < |edges| ==> (e in s.line <==> Start(e) !in s.pending && Stop(e) in s.pending))
  }

  // A queued intersection names two edges of the line that meet there, converging.
  predicate SoundCrossing(edges: Edges, s: State, c: Event) {
    && c.Crossing? && c.e1 < |edges| && c.e2 < |edges|
    && c.e1 in s.line && c.e2 in s.line
    && MeetingBelow(edges[c.e1], edges[c.e2]) == Meet(c.at)
  }

  ghost predicate Inv(edges: Edges, s: State) {
    && ValidEdges(edges) && WellFormed(edges, s)
    && Distinct(s.line)
    && Sorted(edges, s.pending) && Sorted(edges, s.crossings)
    && Lifetimes(edges, s)
    && forall c :: c in s.crossings ==> SoundCrossing(edges, s, c)
  }

  lemma InitInv(edges: Edges)
    requires ValidEdges(edges)
    ensures Inv(edges, Init(edges))
  {
    StartStopsRefer(edges);
    StartStopsMembers(|edges|);
    SortSorts(edges, StartStops(|edges|));
  }

  // A sound crossing is stored strictly before both bottoms, so it leaves the queue
  // before either edge stops.
  lemma CrossingBeforeStops(edges: Edges, s: State, c: Event)
    requires ValidEdges(edges) && SoundCrossing(edges, s, c)
    ensures c.e1 != c.e2
    ensures CompareEvents(edges, c, Stop(c.e1)) < 0 && CompareEvents(edges, c, Stop(c.e2)) < 0
    ensures Slope(edges[c.e1]) > Slope(edges[c.e2])
  {
    MeetingBelowConverges(edges[c.e1], edges[c.e2]);
    MeetIsBeforeBottoms(edges[c.e1], edges[c.e2]);
  }

  lemma QueueMeetingSound(edges: Edges, crossings: seq<Event>, left: Neighbour, right: Neighbour)
    requires ValidEdges(edges) && Sorted(edges, crossings) && KnownNeighbour(edges, left)
    requires KnownNeighbour(edges, right)
    ensures Sorted(edges, QueueMeeting(edges, crossings, left, right))
    ensures forall c :: c in QueueMeeting(edges, crossings, left, right) <==>
              c in crossings ||
              (left.Present? && right.Present? && c.Crossing? && c.e1 == left.id && c.e2 == right.id
               && MeetingBelow(edges[c.e1], edges[c.e2]) == Meet(c.at))
    ensures |QueueMeeting(edges, crossings, left, right)| <= |crossings| + 1
  {
    hide MeetingBelow, Sorted;
    if left.Present? && right.Present? && MeetingBelow(edges[left.id], edges[right.id]).Meet? {
      var p := MeetingBelow(edges[left.id], edges[right.id]).at;
      InsertKeepsSorted(edges, crossings, Crossing(left.id, right.id, p));
    }
  }

  // ---- The list operations on sequences ----

  lemma InsertAtMembers(line: seq<nat>, k: nat, e: nat)
    requires k <= |line|
    ensures forall x :: x in InsertAt(line, k, e) <==> x in line || x == e
    ensures Distinct(line) && e !in line ==> Distinct(InsertAt(line, k, e))
  {
    assert line == line[..k] + line[k..];
  }

  lemma DeleteAtMembers(line: seq<nat>, k: nat)
    requires k < |line| && Distinct(line)
    ensures forall x :: x in DeleteAt(line, k) <==> x in line && x != line[k]
    ensures Distinct(DeleteAt(line, k))
  {
    assert line == line[..k] + [line[k]] + line[k + 1..];
  }

  lemma SwapAtMembers(line: seq<nat>, k: nat)
    requires k + 1 < |line|
    ensures forall x :: x in SwapAt(line, k) <==> x in line
    ensures Distinct(line) ==> Distinct(SwapAt(line, k))
  {
    var r := SwapAt(line, k);
    assert r[k] == line[k + 1] && r[k + 1] == line[k];
    forall x | x in line ensures x in r {
      var i :| 0 <= i < |line| && line[i] == x;
      assert r[if i == k then k + 1 else if i == k + 1 then k else i] == x;
    }
    forall x | x in r ensures x in line {
      var i :| 0 <= i < |r| && r[i] == x;
      assert line[if i == k then k + 1 else if i == k + 1 then k else i] == x;
    }
  }

  // ---- Each iteration keeps the invariant ----

  // Taking an event out: what remains waits behind it.
  lemma TakenWaits(edges: Edges, s: State)
    requires Inv(edges, s) && !NextEvent(edges, s).Nothing?
    ensures var ev, t := NextEvent(edges, s).ev, Taken(edges, s);
      && Sorted(edges, t.pending) && Sorted(edges, t.crossings)
      && (forall x :: x in t.pending <==> x in s.pending && x != ev)
      && (forall x :: x in t.crossings <==> x in s.crossings && x != ev)
      && (ev in s.pending <==> !ev.Crossing?)
      && (ev in s.crossings <==> ev.Crossing?)
      && (forall x :: x in t.pending || x in t.crossings ==> CompareEvents(edges, ev, x) < 0)
  {
    hide CompareEvents;
    var d, t := NextEvent(edges, s), Taken(edges, s);
    NextIsMinimum(edges, s.pending, s.crossings);
    if d.Pending? {
      assert d.ev in s.pending;
      NotInTail(edges, s.pending);
    } else {
      assert d.ev in s.crossings;
      NotInTail(edges, s.crossings);
    }
    forall x | x in t.pending || x in t.crossings
      ensures CompareEvents(edges, d.ev, x) < 0
    {
      assert x != d.ev;
      assert Refers(edges, x) && Refers(edges, d.ev);
      CompareEventsTotal(edges, d.ev, x);
    }
  }

  lemma StartKeepsInv(edges: Edges, s: State, e: nat, k: nat)
    requires Inv(edges, s) && !NextEvent(edges, s).Nothing? && NextEvent(edges, s).ev == Start(e)
    requires e !in s.line && k <= |s.line|
    ensures e < |edges| && Inv(edges, Started(edges, Taken(edges, s), e, k))
  {
    hide MeetingBelow, CompareEvents, Sorted;
    var t := Taken(edges, s);
    var r := Started(edges, t, e, k);
    TakenWaits(edges, s);
    InsertAtMembers(t.line, k, e);
    var q := QueueMeeting(edges, t.crossings, Member(t.line, k - 1), Present(e));
    QueueMeetingSound(edges, t.crossings, Member(t.line, k - 1), Present(e));
    QueueMeetingSound(edges, q, Present(e), Member(t.line, k));
    assert Start(e) in s.pending;
  }

  lemma StopKeepsInv(edges: Edges, s: State, e: nat, k: nat)
    requires Inv(edges, s) && !NextEvent(edges, s).Nothing? && NextEvent(edges, s).ev == Stop(e)
    requires k < |s.line| && s.line[k] == e
    ensures Inv(edges, Stopped(edges, Taken(edges, s), k))
  {
    hide MeetingBelow, CompareEvents, Sorted;
    var t := Taken(edges, s);
    var r := Stopped(edges, t, k);
    TakenWaits(edges, s);
    DeleteAtMembers(t.line, k);
    QueueMeetingSound(edges, t.crossings, Member(t.line, k - 1), Member(t.line, k + 1));
    forall c | c in t.crossings
      ensures SoundCrossing(edges, r, c)
    {
      CrossingBeforeStops(edges, s, c);
      CompareEventsTotal(edges, c, Stop(e));
    }
  }

  lemma SwapKeepsInv(edges: Edges, s: State, k: nat, p: Point)
    requires Inv(edges, s) && !NextEvent(edges, s).Nothing? && NextEvent(edges, s).ev.Crossing?
    requires k + 1 < |s.line|
    ensures Inv(edges, Swapped(edges, Taken(edges, s), k, p))
  {
    hide MeetingBelow, CompareEvents, Sorted;
    var t := Taken(edges, s);
    TakenWaits(edges, s);
    SwapAtMembers(t.line, k);
    var e1, e2 := t.line[k], t.line[k + 1];
    var q := QueueMeeting(edges, t.crossings, Member(t.line, k - 1), Present(e2));
    QueueMeetingSound(edges, t.crossings, Member(t.line, k - 1), Present(e2));
    QueueMeetingSound(edges, q, Present(e1), Member(t.line, k + 2));
  }

  lemma StepKeepsInv(edges: Edges, s: State, k: nat)
    requires Inv(edges, s) && Legal(edges, s, k)
    ensures Inv(edges, Apply(edges, s, k))
  {
    hide MeetingBelow, CompareEvents, Sorted;
    TakenWaits(edges, s);
    match NextEvent(edges, s).ev
    case Start(e) => StartKeepsInv(edges, s, e, k);
    case Stop(e) => StopKeepsInv(edges, s, e, k);
    case Crossing(e1, e2, p) =>
      if Adjacent(s.line, k, e2) {
        SwapKeepsInv(edges, s, k, p);
      }
  }

  lemma Choice(edges: Edges, s: State, r: State) returns (k: nat)
    requires Step(edges, s, r)
    ensures Legal(edges, s, k) && r == Apply(edges, s, k)
  {
    k :| Legal(edges, s, k) && r == Apply(edges, s, k);
  }

  // Safety: in every reachable state each queued intersection names two edges both
  // on the line, stored strictly before both bottoms.
  lemma {:induction false} ReachableInv(edges: Edges, run: seq<State>, i: nat)
    requires ValidEdges(edges) && Run(edges, run) && i < |run|
    ensures Inv(edges, run[i])
  {
    if i == 0 {
      InitInv(edges);
    } else {
      ReachableInv(edges, run, i - 1);
      assert Step(edges, run[i - 1], run[i]);
      var k := Choice(edges, run[i - 1], run[i]);
      StepKeepsInv(edges, run[i - 1], k);
    }
  }

  // ---- No reachable state is stuck ----

  // However the (possibly rounded) comparison behaves, some position is bracketed.
  lemma {:induction false} PositionExists(edges: Edges, t: State, e: nat, from: nat) returns (k: nat)
    requires WellFormed(edges, t) && e < |edges| && e !in t.line && from <= |t.line|
    requires from > 0 ==> CompareEdges(View(edges, t, t.line[from - 1]), View(edges, t, e), t.y) < 0
    ensures InsertPosition(edges, t, e, k)
    decreases |t.line| - from
  {
    hide CompareX, CompareBoxes, ComparePoints, SlopeCompare;
    if from == |t.line| || CompareEdges(View(edges, t, t.line[from]), View(edges, t, e), t.y) > 0 {
      k := from;
    } else {
      assert t.line[from] in t.line;
      k := PositionExists(edges, t, e, from + 1);
    }
  }

  // While an event waits, an iteration is possible: the edge a stop event deletes and
  // both edges an intersection event looks at are on the line.
  lemma NeverStuck(edges: Edges, s: State) returns (k: nat)
    requires Inv(edges, s) && !Done(s)
    ensures Legal(edges, s, k)
  {
    hide CompareEvents, CompareEdges;
    NextIsMinimum(edges, s.pending, s.crossings);
    TakenWaits(edges, s);
    var ev := NextEvent(edges, s).ev;
    match ev
    case Start(e) =>
      assert ev in s.pending;
      k := PositionExists(edges, Taken(edges, s), e, 0);
    case Stop(e) =>
      assert ev in s.pending;
      if Start(e) in s.pending {
        StartBeforeStop(edges, e);
        CompareEventsTotal(edges, Start(e), ev);
        assert false;
      }
      k :| 0 <= k < |s.line| && s.line[k] == e;
    case Crossing(e1, e2, p) =>
      assert ev in s.crossings;
      k :| 0 <= k < |s.line| && s.line[k] == e1;
  }

  lemma HeadIsMember<T>(s: seq<T>)
    requires s != []
    ensures s[0] in s
  {
  }

  // When the queue runs dry every edge has started and stopped.
  lemma DoneIsEmpty(edges: Edges, s: State)
    requires Inv(edges, s) && Done(s)
    ensures s.line == []
  {
    if s.line != [] {
      HeadIsMember(s.line);
    }
  }

  // ---- Termination ----

  predicate Before(line: seq<nat>, a: nat, b: nat) {
    exists i, j :: 0 <= i < j < |line| && line[i] == a && line[j] == b
  }

  // The pair (a, b) converges and has not been swapped nor left the sweep.
  predicate CanSwap(edges: Edges, s: State, a: nat, b: nat) {
    && a < |edges| && b < |edges|
    && SlopeCompare(edges[a], edges[b]) > 0
    && Stop(a) in s.pending && Stop(b) in s.pending
    && !Before(s.line, b, a)
  }

  ghost function Swappable(edges: Edges, s: State): set<(nat, nat)> {
    set a: nat, b: nat | a < |edges| && b < |edges| && CanSwap(edges, s, a, b) :: (a, b)
  }

  ghost function Weight(pending: seq<Event>): nat {
    if pending == [] then 0 else (if pending[0].Start? then 3 else 2) + Weight(pending[1..])
  }

  // What is left to do. Every iteration lowers it.
  ghost function Remaining(edges: Edges, s: State): nat {
    |s.crossings| + Weight(s.pending) + 2 * |Swappable(edges, s)|
  }

  lemma BeforeAfterInsert(line: seq<nat>, k: nat, e: nat, a: nat, b: nat)
    requires k <= |line| && Before(line, a, b)
    ensures Before(InsertAt(line, k, e), a, b)
  {
    var i, j :| 0 <= i < j < |line| && line[i] == a && line[j] == b;
    var r := InsertAt(line, k, e);
    assert r[if i < k then i else i + 1] == a && r[if j < k then j else j + 1] == b;
  }

  lemma BeforeAfterDelete(line: seq<nat>, k: nat, a: nat, b: nat)
    requires k < |line| && Before(line, a, b) && a != line[k] && b != line[k]
    ensures Before(DeleteAt(line, k), a, b)
  {
    var i, j :| 0 <= i < j < |line| && line[i] == a && line[j] == b;
    var r := DeleteAt(line, k);
    assert r[if i < k then i else i - 1] == a && r[if j < k then j else j - 1] == b;
  }

  lemma BeforeAfterSwap(line: seq<nat>, k: nat, a: nat, b: nat)
    requires k + 1 < |line| && Before(line, a, b) && !(a == line[k] && b == line[k + 1])
    ensures Before(SwapAt(line, k), a, b)
  {
    var i, j :| 0 <= i < j < |line| && line[i] == a && line[j] == b;
    var r := SwapAt(line, k);
    var i', j' := if i == k then k + 1 else if i == k + 1 then k else i,
                  if j == k then k + 1 else if j == k + 1 then k else j;
    assert i' < j' && r[i'] == a && r[j'] == b;
  }

  // In a line without repetitions two edges come in one order.
  lemma BeforeIsAsymmetric(line: seq<nat>, a: nat, b: nat)
    requires Distinct(line) && Before(line, a, b)
    ensures !Before(line, b, a)
  {
  }

  // No iteration makes a pair swappable, and a swap uses its pair up.
  lemma SwappableShrinks(edges: Edges, s: State, k: nat)
    requires Inv(edges, s) && Legal(edges, s, k)
    ensures Swappable(edges, Apply(edges, s, k)) <= Swappable(edges, s)
    ensures Apply(edges, s, k).count > s.count ==>
              |Swappable(edges, Apply(edges, s, k))| < |Swappable(edges, s)|
    ensures s.count <= Apply(edges, s, k).count <= s.count + 1
  {
    hide CompareEvents, CompareEdges, MeetingBelow, Sorted, SlopeCompare;
    var t, r := Taken(edges, s), Apply(edges, s, k);
    TakenWaits(edges, s);
    forall a, b | (a, b) in Swappable(edges, r)
      ensures (a, b) in Swappable(edges, s)
    {
      StillSwappable(edges, s, k, a, b);
    }
    if r.count > s.count {
      var e1, e2 := s.line[k], s.line[k + 1];
      SwapUsesUp(edges, s, k);
      assert (e1, e2) in Swappable(edges, s) && (e1, e2) !in Swappable(edges, r);
      ProperSubset(Swappable(edges, r), Swappable(edges, s), (e1, e2));
    }
  }

  lemma StillSwappable(edges: Edges, s: State, k: nat, a: nat, b: nat)
    requires Inv(edges, s) && Legal(edges, s, k)
    requires CanSwap(edges, Apply(edges, s, k), a, b)
    ensures CanSwap(edges, s, a, b)
  {
    hide CompareEvents, CompareEdges, MeetingBelow, Sorted, SlopeCompare, Before;
    TakenWaits(edges, s);
    if Before(s.line, b, a) {
      match NextEvent(edges, s).ev
      case Start(e) => BeforeAfterInsert(s.line, k, e, b, a);
      case Stop(e) => BeforeAfterDelete(s.line, k, b, a);
      case Crossing(e1, e2, p) =>
        if Adjacent(s.line, k, e2) {
          CrossingBeforeStops(edges, s, NextEvent(edges, s).ev);
          SlopeCompareIsExact(edges[e1], edges[e2]);
          SlopeCompareIsExact(edges[a], edges[b]);
          BeforeAfterSwap(s.line, k, b, a);
        }
    }
  }

  lemma SwapUsesUp(edges: Edges, s: State, k: nat)
    requires Inv(edges, s) && Legal(edges, s, k) && Apply(edges, s, k).count > s.count
    ensures k + 1 < |s.line|
    ensures CanSwap(edges, s, s.line[k], s.line[k + 1])
    ensures !CanSwap(edges, Apply(edges, s, k), s.line[k], s.line[k + 1])
  {
    hide CompareEvents, CompareEdges, MeetingBelow, Sorted, SlopeCompare;
    var ev := NextEvent(edges, s).ev;
    TakenWaits(edges, s);
    var e1, e2 := s.line[k], s.line[k + 1];
    assert e1 in s.line && e2 in s.line;
    CrossingBeforeStops(edges, s, ev);
    SlopeCompareIsExact(edges[e1], edges[e2]);
    assert Before(s.line, e1, e2);
    BeforeIsAsymmetric(s.line, e1, e2);
    var r := SwapAt(s.line, k);
    assert r[k] == e2 && r[k + 1] == e1;
    assert Before(r, e2, e1);
  }

  // Every iteration lowers the measure, so the loop ends.
  lemma RemainingFalls(edges: Edges, s: State, k: nat)
    requires Inv(edges, s) && Legal(edges, s, k)
    ensures Remaining(edges, Apply(edges, s, k)) < Remaining(edges, s)
  {
    hide CompareEvents, CompareEdges, MeetingBelow, Sorted, Swappable;
    SwappableShrinks(edges, s, k);
    SubsetSize(Swappable(edges, Apply(edges, s, k)), Swappable(edges, s));
    QueueGrowth(edges, s, k);
  }

  lemma QueueGrowth(edges: Edges, s: State, k: nat)
    requires Inv(edges, s) && Legal(edges, s, k)
    ensures var r := Apply(edges, s, k);
      |r.crossings| + Weight(r.pending) + 1 <= |s.crossings| + Weight(s.pending) + 2 * (r.count - s.count)
  {
    hide CompareEvents, CompareEdges, MeetingBelow, Sorted;
    var t := Taken(edges, s);
    TakenWaits(edges, s);
    match NextEvent(edges, s).ev
    case Start(e) =>
      var q := QueueMeeting(edges, t.crossings, Member(t.line, k - 1), Present(e));
      QueueMeetingSound(edges, t.crossings, Member(t.line, k - 1), Present(e));
      QueueMeetingSound(edges, q, Present(e), Member(t.line, k));
    case Stop(e) =>
      QueueMeetingSound(edges, t.crossings, Member(t.line, k - 1), Member(t.line, k + 1));
    case Crossing(e1, e2, p) =>
      if Adjacent(t.line, k, e2) {
        var q := QueueMeeting(edges, t.crossings, Member(t.line, k - 1), Present(e2));
        QueueMeetingSound(edges, t.crossings, Member(t.line, k - 1), Present(e2));
        QueueMeetingSound(edges, q, Present(e1), Member(t.line, k + 2));
      }
  }

  // ---- The bounds ----

  lemma {:induction false} WeightOfInsert(edges: Edges, q: seq<Event>, ev: Event)
    requires AllRefer(edges, q) && Refers(edges, ev)
    ensures Weight(EventQueue.Insert(edges, q, ev)) <= Weight(q) + (if ev.Start? then 3 else 2)
  {
    hide CompareEvents;
    if q != [] {
      WeightOfInsert(edges, q[1..], ev);
      assert ([ev] + q)[1..] == q;
      var r := EventQueue.Insert(edges, q[1..], ev);
      assert ([q[0]] + r)[1..] == r;
    }
  }

  lemma {:induction false} WeightOfSort(edges: Edges, evs: seq<Event>)
    requires AllRefer(edges, evs)
    ensures Weight(Sort(edges, evs)) <= Weight(evs)
  {
    if evs != [] {
      WeightOfSort(edges, evs[1..]);
      WeightOfInsert(edges, Sort(edges, evs[1..]), evs[0]);
    }
  }

  lemma {:induction false} WeightAppend(a: seq<Event>, b: seq<Event>)
    ensures Weight(a + b) == Weight(a) + Weight(b)
  {
    if a == [] {
      assert a + b == b;
    } else {
      WeightAppend(a[1..], b);
      assert (a + b)[1..] == a[1..] + b;
    }
  }

  lemma {:induction false} WeightOfStartStops(n: nat)
    ensures Weight(StartStops(n)) == 5 * n
  {
    if n > 0 {
      WeightOfStartStops(n - 1);
      WeightAppend(StartStops(n - 1), [Start(n - 1), Stop(n - 1)]);
      WeightAppend([Start(n - 1)], [Stop(n - 1)]);
      assert [Start(n - 1), Stop(n - 1)] == [Start(n - 1)] + [Stop(n - 1)];
    }
  }

  lemma SwappableBound(edges: Edges, s: State)
    requires ValidEdges(edges)
    ensures 2 * |Swappable(edges, s)| <= |edges| * (|edges| - 1)
  {
    hide SlopeCompare;
    forall a, b | (a, b) in Swappable(edges, s)
      ensures a < |edges| && b < |edges| && a != b && (b, a) !in Swappable(edges, s)
    {
      SlopeCompareIsExact(edges[a], edges[b]);
      SlopeCompareIsExact(edges[b], edges[a]);
    }
    OneOfEachPair(Swappable(edges, s), |edges|);
  }

  lemma RemainingAtInit(edges: Edges)
    requires ValidEdges(edges)
    ensures Remaining(edges, Init(edges)) <= |edges| * |edges| + 4 * |edges|
  {
    StartStopsRefer(edges);
    WeightOfSort(edges, StartStops(|edges|));
    WeightOfStartStops(|edges|);
    SwappableBound(edges, Init(edges));
  }

  lemma {:induction false} RunBudget(edges: Edges, run: seq<State>, i: nat)
    requires ValidEdges(edges) && Run(edges, run) && i < |run|
    ensures i + Remaining(edges, run[i]) <= Remaining(edges, run[0])
    ensures run[i].count + |Swappable(edges, run[i])| <= |Swappable(edges, run[0])|
  {
    if i > 0 {
      RunBudget(edges, run, i - 1);
      ReachableInv(edges, run, i - 1);
      assert Step(edges, run[i - 1], run[i]);
      var k := Choice(edges, run[i - 1], run[i]);
      RemainingFalls(edges, run[i - 1], k);
      SwappableShrinks(edges, run[i - 1], k);
      SubsetSize(Swappable(edges, run[i]), Swappable(edges, run[i - 1]));
    }
  }

  // A run on n edges takes at most n*n + 4n iterations and counts at most
  // n(n-1)/2 intersections.
  lemma RunIsBounded(edges: Edges, run: seq<State>)
    requires ValidEdges(edges) && Run(edges, run)
    ensures |run| - 1 <= |edges| * |edges| + 4 * |edges|
    ensures 2 * run[|run| - 1].count <= |edges| * (|edges| - 1)
  {
    hide Remaining, Swappable;
    RunBudget(edges, run, |run| - 1);
    RemainingAtInit(edges);
    SwappableBound(edges, run[0]);
  }
}
