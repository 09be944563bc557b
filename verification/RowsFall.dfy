// When the current row falls: exactly when a queued pair of edges is out of order on it
// (cairo-bentley-ottmann.c, lines 811-829, 894-927 and 1378-1484).
module RowsFall {
  import opened Geometry
  import opened Intersect
  import opened Events
  import opened EventQueue
  import opened Sweep
  import opened SweepOrder
  import opened RowZero
  import opened Trapezoids

  // Starts and stops never lie above the current row.
  lemma PendingNotAbove(edges: Edges, run: seq<State>, i: nat, x: Event)
    requires ValidEdges(edges) && AllInRange(edges) && Run(edges, run) && i < |run| && x in run[i].pending
    ensures Refers(edges, x) && At(edges, x).y >= run[i].y
  {
    hide Legal, Apply, Init, Inv, AllInRange, Lifetimes, WellFormed;
    ReachableInv(edges, run, i);
    InvParts(edges, run[i]);
    WaitsBelow(edges, run[i], x);
    if i > 0 {
      assert Step(edges, run[i - 1], run[i]);
      var k := Choice(edges, run[i - 1], run[i]);
      ReachableInv(edges, run, i - 1);
      StepNotAbove(edges, run[i - 1], k, x);
    } else {
      FirstRow(edges);
    }
  }

  lemma FirstRow(edges: Edges)
    ensures Init(edges).y == 0
  {
  }

  lemma WaitsBelow(edges: Edges, s: State, x: Event)
    requires AllInRange(edges) && WellFormed(edges, s) && Lifetimes(edges, s) && x in s.pending
    ensures Refers(edges, x) && At(edges, x).y >= 0
  {
  }

  lemma StepNotAbove(edges: Edges, s: State, k: nat, x: Event)
    requires Inv(edges, s) && Legal(edges, s, k) && x in Apply(edges, s, k).pending
    ensures Refers(edges, x) && At(edges, x).y >= Apply(edges, s, k).y
  {
    hide CompareEvents, Sorted, MeetingBelow, CompareEdges;
    TakenWaits(edges, s);
    OrderIsByPoint(edges, NextEvent(edges, s).ev, x);
  }

  // The next event lies above the current row if and only if some queued crossing does.
  lemma FallsExactly(edges: Edges, run: seq<State>, i: nat)
    requires ValidEdges(edges) && AllInRange(edges) && Run(edges, run) && i < |run|
    ensures var s := run[i];
      && WellFormed(edges, s)
      && (!NextEvent(edges, s).Nothing? ==>
            (At(edges, NextEvent(edges, s).ev).y < s.y <==>
                exists c :: c in s.crossings && c.Crossing? && c.at.y < s.y))
  {
    hide CompareEvents, Sorted, MeetingBelow, Run, Inv;
    var s := run[i];
    ReachableInv(edges, run, i);
    InvParts(edges, s);
    NextIsMinimum(edges, s.pending, s.crossings);
    var d := NextEvent(edges, s);
    if !d.Nothing? {
      if d.ev in s.pending { PendingNotAbove(edges, run, i, d.ev); }
      forall c | c in s.crossings ensures Refers(edges, c) && At(edges, d.ev).y <= At(edges, c).y {
        OrderIsByPoint(edges, d.ev, c);
      }
    }
  }

  // The edges of a queued crossing are out of order on the row; of one farther than 2^31
  // rows above the grid, its stored point is above it.
  ghost predicate OutOfOrder(edges: Edges, c: Event, y: int)
    requires ValidEdges(edges)
  {
    && c.Crossing? && c.e1 < |edges| && c.e2 < |edges| && Slope(edges[c.e1]) != Slope(edges[c.e2])
    && var a, b := edges[c.e1], edges[c.e2];
      if CrossY(a, b) >= -(TWO31 as real) then XAt(a, y as real) > XAt(b, y as real) else c.at.y < y
  }

  lemma AboveIsOutOfOrder(edges: Edges, c: Event, y: int)
    requires ValidEdges(edges) && TrueOrFar(edges, c)
    ensures c.at.y < y <==> OutOfOrder(edges, c, y)
  {
    hide Slope, XAt, CrossX, CrossY, StrictlyInside;
    var a, b := edges[c.e1], edges[c.e2];
    if CrossY(a, b) >= -(TWO31 as real) {
      var z := CrossY(a, b);
      assert c.at.y == z.Floor;
      if z <= y as real { GapMoves(a, b, z, y as real); } else { GapMoves(a, b, y as real, z); }
      CrossIsTheMeeting(a, b, z);
      FloorBelow(z, y);
    }
  }

  lemma FloorBelow(z: real, y: int)
    ensures z.Floor < y <==> z < y as real
  {
  }

  ghost predicate QueueInOrder(edges: Edges, s: State)
    requires ValidEdges(edges)
  {
    forall c :: c in s.crossings ==> !OutOfOrder(edges, c, s.y)
  }

  // An iteration falls to a row above if and only if it starts with a queued pair out of
  // order on its row.
  lemma StepFallsExactly(edges: Edges, run: seq<State>, i: nat)
    requires ValidEdges(edges) && AllInRange(edges) && Run(edges, run) && i + 1 < |run|
    ensures run[i + 1].y < run[i].y <==> !QueueInOrder(edges, run[i])
  {
    hide OutOfOrder, TrueOrFar, Run, Legal, Apply, RowZeroInv, NextEvent;
    var s, j := run[i], i + 1;
    QueuedAreTrueOrFar(edges, run, i);
    forall c | c in s.crossings ensures c.Crossing? && (c.at.y < s.y <==> OutOfOrder(edges, c, s.y)) {
      AboveIsOutOfOrder(edges, c, s.y);
      TrueIsCrossing(edges, c);
    }
    FallsExactly(edges, run, i);
    var k := RunStep(edges, run, j);
    StepIsOnRow(edges, s, k);
  }

  lemma TrueIsCrossing(edges: Edges, c: Event)
    requires ValidEdges(edges) && TrueOrFar(edges, c)
    ensures c.Crossing?
  {
  }

  lemma RunStep(edges: Edges, run: seq<State>, j: nat) returns (k: nat)
    requires Run(edges, run) && 0 < j < |run|
    ensures WellFormed(edges, run[j - 1]) && Legal(edges, run[j - 1], k) && run[j] == Apply(edges, run[j - 1], k)
  {
    hide Legal, Apply, Init;
    assert Step(edges, run[j - 1], run[j]);
    k := Choice(edges, run[j - 1], run[j]);
  }

  lemma StepIsOnRow(edges: Edges, s: State, k: nat)
    requires WellFormed(edges, s) && Legal(edges, s, k)
    ensures !NextEvent(edges, s).Nothing? && Refers(edges, NextEvent(edges, s).ev)
    ensures Apply(edges, s, k).y == At(edges, NextEvent(edges, s).ev).y
  {
    hide CompareEvents, CompareEdges, QueueMeeting;
  }

  // The rows of a run never fall if and only if, in every state an iteration starts from,
  // all queued pairs are in order on the row.
  lemma RowsNeverFallExactly(edges: Edges, rule: FillRule, run: seq<Full>)
    requires ValidEdges(edges) && AllInRange(edges) && RunFull(edges, rule, run)
    ensures RowsNeverFall(edges, run) <==>
              forall i :: 0 <= i < |run| - 1 ==> QueueInOrder(edges, run[i].core)
  {
    hide RunFull, Run, QueueInOrder, AllInRange;
    CoresRun(edges, rule, run);
    var cores := Cores(run);
    assert |cores| == |run| && forall i :: 0 <= i < |run| ==> cores[i] == run[i].core;
    forall i | 0 <= i < |run| - 1
      ensures run[i + 1].core.y < run[i].core.y <==> !QueueInOrder(edges, run[i].core)
    {
      StepFallsExactly(edges, cores, i);
    }
    if forall i :: 0 <= i < |run| - 1 ==> QueueInOrder(edges, run[i].core) {
      forall i | 0 < i < |run| ensures run[i - 1].core.y <= run[i].core.y {
        assert QueueInOrder(edges, run[i - 1].core);
        var h := i - 1;
        assert run[h + 1].core.y < run[h].core.y <==> !QueueInOrder(edges, run[h].core);
      }
    }
    if RowsNeverFall(edges, run) {
      forall i | 0 <= i < |run| - 1 ensures QueueInOrder(edges, run[i].core) {
        var j := i + 1;
        assert run[j - 1].core.y <= run[j].core.y;
        assert run[i + 1].core.y < run[i].core.y <==> !QueueInOrder(edges, run[i].core);
      }
    }
  }

  // So deferred trapezoids refine eager ones in every completed run that never takes an
  // event while a queued pair is out of order on the row.
  lemma LazyRefinesEagerInOrder(edges: Edges, rule: FillRule, run: seq<Full>)
    requires ValidEdges(edges) && AllInRange(edges) && RunFull(edges, rule, run)
    requires forall i :: 0 <= i < |run| - 1 ==> QueueInOrder(edges, run[i].core)
    requires Done(run[|run| - 1].core)
    ensures var f := run[|run| - 1];
      && f.traps.deferred == map[]
      && (forall l: nat, r: nat, row: int :: Count(f.traps.out, l, r, row) == Count(f.eager, l, r, row) <= 1)
      && (forall i :: 0 <= i < |f.traps.out| ==> StripInRange(edges, f.traps.out[i]))
  {
    hide RunFull, QueueInOrder, RowsNeverFall, StripInRange, Count;
    RowsNeverFallExactly(edges, rule, run);
    LazyRefinesEager(edges, rule, run);
  }
}
