// What the swaps of a run leave behind: the number of intersections it reports and the
// points its edges were last swapped at (cairo-bentley-ottmann.c, lines 1446-1479).
module Swaps {
  import opened Geometry
  import opened Events
  import opened EventQueue
  import opened Sweep

  // The next event is a crossing of two edges that stand side by side, in its order.
  ghost predicate SwapIsNext(edges: Edges, s: State) {
    && WellFormed(edges, s) && !NextEvent(edges, s).Nothing?
    && var ev := NextEvent(edges, s).ev;
       ev.Crossing? && exists j :: 0 <= j < |s.line| - 1 && s.line[j] == ev.e1 && s.line[j + 1] == ev.e2
  }

  // That crossing is one of e.
  ghost predicate SwapOfIsNext(edges: Edges, s: State, e: nat) {
    SwapIsNext(edges, s) && var ev := NextEvent(edges, s).ev; ev.e1 == e || ev.e2 == e
  }

  // How many of the states are followed by a swap.
  ghost function CountSwaps(edges: Edges, states: seq<State>): nat {
    if states == [] then 0
    else
      var n := |states| - 1;
      CountSwaps(edges, states[..n]) + if SwapIsNext(edges, states[n]) then 1 else 0
  }

  lemma StepCounts(edges: Edges, s: State, k: nat)
    requires Inv(edges, s) && Legal(edges, s, k)
    ensures Apply(edges, s, k).count == s.count + if SwapIsNext(edges, s) then 1 else 0
  {
    hide CompareEvents, CompareEdges, Sorted, QueueMeeting;
    var ev := NextEvent(edges, s).ev;
    if ev.Crossing? && Adjacent(s.line, k, ev.e2) {
      assert s.line[k] == ev.e1 && s.line[k + 1] == ev.e2;
    }
  }

  lemma StepMoves(edges: Edges, s: State, k: nat, e: nat)
    requires Inv(edges, s) && Legal(edges, s, k) && e < |edges|
    ensures Apply(edges, s, k).middle[e]
         == if SwapOfIsNext(edges, s, e) then NextEvent(edges, s).ev.at else s.middle[e]
  {
    hide CompareEvents, CompareEdges, Sorted, QueueMeeting;
    var ev := NextEvent(edges, s).ev;
    if ev.Crossing? && Adjacent(s.line, k, ev.e2) {
      assert s.line[k] == ev.e1 && s.line[k + 1] == ev.e2;
    }
  }

  // The intersections counted are the iterations that swap two neighbours at their crossing.
  lemma {:induction false} CountIsSwaps(edges: Edges, run: seq<State>, i: nat)
    requires ValidEdges(edges) && Run(edges, run) && i < |run|
    ensures run[i].count == CountSwaps(edges, run[..i])
  {
    hide Apply, Legal, Inv, SwapIsNext, WellFormed, NextEvent, Tops;
    if i > 0 {
      CountIsSwaps(edges, run, i - 1);
      ReachableInv(edges, run, i - 1);
      assert Step(edges, run[i - 1], run[i]);
      var k := Choice(edges, run[i - 1], run[i]);
      StepCounts(edges, run[i - 1], k);
      assert run[..i][..i - 1] == run[..i - 1];
    }
  }

  // The stored middle of an edge is the point of the last crossing it was swapped at, and
  // its top before any.
  lemma {:induction false} MiddleIsLastSwap(edges: Edges, run: seq<State>, i: nat, e: nat)
    requires ValidEdges(edges) && Run(edges, run) && i < |run| && e < |edges|
    ensures |run[i].middle| == |edges|
    ensures
      || (run[i].middle[e] == edges[e].top && forall j :: 0 <= j < i ==> !SwapOfIsNext(edges, run[j], e))
      || exists j :: 0 <= j < i && SwapOfIsNext(edges, run[j], e) && run[i].middle[e] == NextEvent(edges, run[j]).ev.at
           && forall m :: j < m < i ==> !SwapOfIsNext(edges, run[m], e)
  {
    hide Apply, Legal, SwapIsNext, CompareEvents, Sorted;
    ReachableInv(edges, run, i);
    if i > 0 {
      MiddleIsLastSwap(edges, run, i - 1, e);
      ReachableInv(edges, run, i - 1);
      assert Step(edges, run[i - 1], run[i]);
      var k := Choice(edges, run[i - 1], run[i]);
      StepMoves(edges, run[i - 1], k, e);
    }
  }
}
