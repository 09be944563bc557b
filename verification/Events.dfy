// Events of the sweep, their order, and the two-source queue they wait in
// (cairo-bentley-ottmann.c, lines 445-568 and 778-892).
module Events {
  import opened Arith
  import opened Geometry

  // e1, e2 and the edge of a start or stop event are array positions: they stand
  // for the edge pointers, whose order is the order of the positions.
  datatype Event =
    | Start(edge: nat)
    | Stop(edge: nat)
    | Crossing(e1: nat, e2: nat, at: Point)

  type Edges = seq<Edge>

  predicate ValidEdges(edges: Edges) {
    forall i :: 0 <= i < |edges| ==> Downward(edges[i])
  }

  predicate Refers(edges: Edges, ev: Event) {
    match ev
    case Start(e) => e < |edges|
    case Stop(e) => e < |edges|
    case Crossing(e1, e2, _) => e1 < |edges| && e2 < |edges|
  }

  function FirstEdge(ev: Event): nat {
    if ev.Crossing? then ev.e1 else ev.edge
  }

  function At(edges: Edges, ev: Event): Point
    requires Refers(edges, ev)
  {
    match ev
    case Start(e) => edges[e].top
    case Stop(e) => edges[e].bottom
    case Crossing(_, _, p) => p
  }

  // ---- cairo_bo_event_compare ----

  function CompareKinds(a: Event, b: Event): int {
    if a.Stop? then (if b.Stop? then 0 else -1)
    else if a.Start? then (if b.Start? then 0 else 1)
    else if b.Stop? then 1
    else if b.Start? then -1
    else 0
  }

  // The tests on the opposite points, for two events of one kind.
  function CompareOpposite(edges: Edges, a: Event, b: Event): int
    requires Refers(edges, a) && Refers(edges, b) && CompareKinds(a, b) == 0
  {
    match a
    case Start(e) => ComparePoints(edges[b.edge].bottom, edges[e].bottom)
    case Stop(e) => ComparePoints(edges[e].top, edges[b.edge].top)
    case Crossing(e1, e2, _) =>
      var c := ComparePoints(edges[e2].top, edges[b.e2].top);
      if c != 0 then c
      else
        var c := ComparePoints(edges[e2].bottom, edges[b.e2].bottom);
        if c != 0 then c
        else
          var c := ComparePoints(edges[e1].top, edges[b.e1].top);
          if c != 0 then c else ComparePoints(edges[e1].bottom, edges[b.e1].bottom)
  }

  function CompareAddresses(a: Event, b: Event): int {
    if FirstEdge(a) < FirstEdge(b) then -1
    else if FirstEdge(a) > FirstEdge(b) then 1
    else if a.Crossing? && b.Crossing? then
      (if a.e2 < b.e2 then -1 else if a.e2 > b.e2 then 1 else 0)
    else 0
  }

  function CompareEvents(edges: Edges, a: Event, b: Event): int
    requires Refers(edges, a) && Refers(edges, b)
  {
    var c := ComparePoints(At(edges, a), At(edges, b));
    if c != 0 then c
    else
      var c := CompareKinds(a, b);
      if c != 0 then c
      else
        var c := SlopeCompare(edges[FirstEdge(a)], edges[FirstEdge(b)]);
        if c != 0 then (if a.Start? then c else -c)
        else
          var c := CompareOpposite(edges, a, b);
          if c != 0 then c else CompareAddresses(a, b)
  }

  // ---- The reference order: a key compared component by component ----

  // At one point stops come first, then crossings, then starts.
  ghost function Rank(ev: Event): real {
    match ev
    case Stop(_) => 0.0
    case Crossing(_, _, _) => 1.0
    case Start(_) => 2.0
  }

  ghost function EventKey(edges: Edges, ev: Event): seq<real>
    requires ValidEdges(edges) && Refers(edges, ev)
  {
    var y, x, r := At(edges, ev).y as real, At(edges, ev).x as real, Rank(ev);
    match ev
    case Start(e) =>
      [y, x, r, Slope(edges[e]), -(edges[e].bottom.y as real), -(edges[e].bottom.x as real), e as real]
    case Stop(e) =>
      [y, x, r, -Slope(edges[e]), edges[e].top.y as real, edges[e].top.x as real, e as real]
    case Crossing(e1, e2, _) =>
      [y, x, r, -Slope(edges[e1]),
       edges[e2].top.y as real, edges[e2].top.x as real, edges[e2].bottom.y as real, edges[e2].bottom.x as real,
       edges[e1].top.y as real, edges[e1].top.x as real, edges[e1].bottom.y as real, edges[e1].bottom.x as real,
       e1 as real, e2 as real]
  }

  lemma KeyDecides(a: seq<real>, b: seq<real>, k: nat)
    requires k < |a| && k < |b| && (forall i :: 0 <= i < k ==> a[i] == b[i]) && a[k] != b[k]
    ensures LexCompare(a, b) == SignOf(a[k] - b[k])
  {
    assert a[..k] == b[..k];
    LexDecides(a, b, k);
  }

  lemma KeyHead(edges: Edges, a: Event, b: Event)
    requires ValidEdges(edges) && Refers(edges, a) && Refers(edges, b)
    ensures var ka, kb := EventKey(edges, a), EventKey(edges, b);
      && |ka| > 3 && |kb| > 3
      && ka[0] - kb[0] == (At(edges, a).y - At(edges, b).y) as real
      && ka[1] - kb[1] == (At(edges, a).x - At(edges, b).x) as real
      && SignOf(ka[2] - kb[2]) == CompareKinds(a, b)
      && (CompareKinds(a, b) == 0 ==>
           var c := SlopeCompare(edges[FirstEdge(a)], edges[FirstEdge(b)]);
           SignOf(ka[3] - kb[3]) == if a.Start? then c else -c)
  {
    hide Slope, SlopeCompare;
    SlopeCompareIsExact(edges[FirstEdge(a)], edges[FirstEdge(b)]);
  }

  lemma CompareEventsIsLex(edges: Edges, a: Event, b: Event)
    requires ValidEdges(edges) && Refers(edges, a) && Refers(edges, b)
    ensures Sign(CompareEvents(edges, a, b)) == LexCompare(EventKey(edges, a), EventKey(edges, b))
  {
    hide LexCompare, EventKey, SlopeCompare, CompareOpposite, CompareAddresses;
    var ka, kb := EventKey(edges, a), EventKey(edges, b);
    KeyHead(edges, a, b);
    if ka[0] != kb[0] { KeyDecides(ka, kb, 0); }
    else if ka[1] != kb[1] { KeyDecides(ka, kb, 1); }
    else if ka[2] != kb[2] { KeyDecides(ka, kb, 2); }
    else if ka[3] != kb[3] { KeyDecides(ka, kb, 3); }
    else { CompareTiesIsLex(edges, a, b); }
  }

  // Events of one kind at one point whose (first) edges have equal slopes.
  lemma CompareTiesIsLex(edges: Edges, a: Event, b: Event)
    requires ValidEdges(edges) && Refers(edges, a) && Refers(edges, b) && CompareKinds(a, b) == 0
    requires forall i :: 0 <= i < 4 ==> EventKey(edges, a)[i] == EventKey(edges, b)[i]
    ensures LexCompare(EventKey(edges, a), EventKey(edges, b))
         == Sign(if CompareOpposite(edges, a, b) != 0 then CompareOpposite(edges, a, b) else CompareAddresses(a, b))
  {
    hide Slope, LexCompare;
    var ka, kb := EventKey(edges, a), EventKey(edges, b);
    LexZero(ka, kb);
    if ka != kb {
      var k := FirstDifference(ka, kb);
      LexDecides(ka, kb, k);
      if a.Crossing? { CrossingTie(edges, a, b, k); } else { EndTie(edges, a, b, k); }
    } else {
      KeyIdentifies(edges, a, b);
    }
  }

  lemma EndTie(edges: Edges, a: Event, b: Event, k: nat)
    requires ValidEdges(edges) && Refers(edges, a) && Refers(edges, b) && !a.Crossing? && CompareKinds(a, b) == 0
    requires 4 <= k < 7 && EventKey(edges, a)[k] != EventKey(edges, b)[k]
    requires forall i :: 0 <= i < k ==> EventKey(edges, a)[i] == EventKey(edges, b)[i]
    ensures SignOf(EventKey(edges, a)[k] - EventKey(edges, b)[k])
         == Sign(if CompareOpposite(edges, a, b) != 0 then CompareOpposite(edges, a, b) else CompareAddresses(a, b))
  {
    hide Slope;
    var ka, kb := EventKey(edges, a), EventKey(edges, b);
    assert k > 4 ==> ka[4] == kb[4];
    assert k > 5 ==> ka[5] == kb[5];
  }

  lemma CrossingTie(edges: Edges, a: Event, b: Event, k: nat)
    requires ValidEdges(edges) && Refers(edges, a) && Refers(edges, b) && a.Crossing? && b.Crossing?
    requires 4 <= k < 14 && EventKey(edges, a)[k] != EventKey(edges, b)[k]
    requires forall i :: 0 <= i < k ==> EventKey(edges, a)[i] == EventKey(edges, b)[i]
    ensures SignOf(EventKey(edges, a)[k] - EventKey(edges, b)[k])
         == Sign(if CompareOpposite(edges, a, b) != 0 then CompareOpposite(edges, a, b) else CompareAddresses(a, b))
  {
    hide Slope;
    var ka, kb := EventKey(edges, a), EventKey(edges, b);
    assert k > 4 ==> ka[4] == kb[4];
    assert k > 5 ==> ka[5] == kb[5];
    assert k > 6 ==> ka[6] == kb[6];
    assert k > 7 ==> ka[7] == kb[7];
    assert k > 8 ==> ka[8] == kb[8];
    assert k > 9 ==> ka[9] == kb[9];
    assert k > 10 ==> ka[10] == kb[10];
    assert k > 11 ==> ka[11] == kb[11];
    assert k > 12 ==> ka[12] == kb[12];
  }

  lemma KeyIdentifies(edges: Edges, a: Event, b: Event)
    requires ValidEdges(edges) && Refers(edges, a) && Refers(edges, b)
    requires EventKey(edges, a) == EventKey(edges, b)
    ensures a == b
  {
    var ka, kb := EventKey(edges, a), EventKey(edges, b);
    assert ka[0] == kb[0] && ka[1] == kb[1] && ka[2] == kb[2];
    if a.Crossing? {
      assert ka[12] == kb[12] && ka[13] == kb[13];
    } else {
      assert ka[6] == kb[6];
    }
  }

  // cairo_bo_event_compare is a total order in which only equal events tie.
  lemma CompareEventsTotal(edges: Edges, a: Event, b: Event)
    requires ValidEdges(edges) && Refers(edges, a) && Refers(edges, b)
    ensures CompareEvents(edges, a, b) == 0 <==> a == b
    ensures CompareEvents(edges, a, b) < 0 <==> CompareEvents(edges, b, a) > 0
  {
    hide CompareEvents, EventKey, LexCompare;
    CompareEventsIsLex(edges, a, b);
    CompareEventsIsLex(edges, b, a);
    LexAntisymmetric(EventKey(edges, a), EventKey(edges, b));
    LexZero(EventKey(edges, a), EventKey(edges, b));
    if EventKey(edges, a) == EventKey(edges, b) {
      KeyIdentifies(edges, a, b);
    }
  }

  lemma CompareEventsTransitive(edges: Edges, a: Event, b: Event, c: Event)
    requires ValidEdges(edges) && Refers(edges, a) && Refers(edges, b) && Refers(edges, c)
    requires CompareEvents(edges, a, b) <= 0 && CompareEvents(edges, b, c) <= 0
    ensures CompareEvents(edges, a, c) <= 0
    ensures CompareEvents(edges, a, b) < 0 || CompareEvents(edges, b, c) < 0 ==> CompareEvents(edges, a, c) < 0
  {
    hide CompareEvents, EventKey, LexCompare;
    CompareEventsIsLex(edges, a, b);
    CompareEventsIsLex(edges, b, c);
    CompareEventsIsLex(edges, a, c);
    LexTransitive(EventKey(edges, a), EventKey(edges, b), EventKey(edges, c));
  }

  // An edge starts before it stops.
  lemma StartBeforeStop(edges: Edges, e: nat)
    requires ValidEdges(edges) && e < |edges|
    ensures CompareEvents(edges, Start(e), Stop(e)) < 0
  {
    assert Downward(edges[e]);
  }

  // Events before another in the order are at or before its point.
  lemma OrderIsByPoint(edges: Edges, a: Event, b: Event)
    requires Refers(edges, a) && Refers(edges, b)
    ensures ComparePoints(At(edges, a), At(edges, b)) < 0 ==> CompareEvents(edges, a, b) < 0
    ensures CompareEvents(edges, a, b) <= 0 ==> ComparePoints(At(edges, a), At(edges, b)) <= 0
    ensures At(edges, a) == At(edges, b) && ((a.Stop? && !b.Stop?) || (!a.Start? && b.Start?)) ==>
              CompareEvents(edges, a, b) < 0
  {
  }
}
