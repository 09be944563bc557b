// What a whole run takes out of the event queue
// (cairo-bentley-ottmann.c, lines 791-892 and 1378-1388).
module Delivery {
  import opened Geometry
  import opened Events
  import opened EventQueue
  import opened Sweep

  // The events handled up to the last state of the run, in order.
  ghost function Delivered(edges: Edges, run: seq<State>): seq<Event>
    requires Run(edges, run)
  {
    if |run| == 1 then [] else
      assert Step(edges, run[|run| - 2], run[|run| - 1]);
      PrefixIsRun(edges, run, |run| - 1);
      Delivered(edges, run[..|run| - 1]) + [NextEvent(edges, run[|run| - 2]).ev]
  }

  lemma PrefixIsRun(edges: Edges, run: seq<State>, n: nat)
    requires Run(edges, run) && 0 < n <= |run|
    ensures Run(edges, run[..n])
  {
    hide Step, Init;
  }

  function Ends(q: seq<Event>): seq<Event> {
    if q == [] then [] else Ends(q[..|q| - 1]) + (if q[|q| - 1].Crossing? then [] else [q[|q| - 1]])
  }

  // A step takes the least of everything waiting, and nothing else leaves the start
  // and stop events.
  lemma StepDelivers(edges: Edges, s: State, k: nat)
    requires Inv(edges, s) && Legal(edges, s, k)
    ensures var ev, r := NextEvent(edges, s).ev, Apply(edges, s, k);
      && (ev in s.pending || ev in s.crossings)
      && (forall x :: x in s.pending || x in s.crossings ==> x == ev || CompareEvents(edges, ev, x) < 0)
      && s.pending == (if ev.Crossing? then r.pending else [ev] + r.pending)
  {
    hide CompareEvents, Sorted, CompareEdges;
    TakenWaits(edges, s);
    var d := NextEvent(edges, s);
    if d.Pending? {
      assert s.pending == [s.pending[0]] + s.pending[1..];
      assert d.ev in s.pending;
    } else {
      assert d.ev in s.crossings;
    }
  }

  lemma EndsAppend(q: seq<Event>, ev: Event)
    ensures Ends(q + [ev]) == Ends(q) + if ev.Crossing? then [] else [ev]
  {
    assert (q + [ev])[..|q|] == q;
  }

  // The last step of a run.
  lemma LastDelivered(edges: Edges, run: seq<State>) returns (k: nat)
    requires ValidEdges(edges) && Run(edges, run) && |run| > 1
    ensures WellFormed(edges, run[|run| - 2]) && !NextEvent(edges, run[|run| - 2]).Nothing?
    ensures var n := |run| - 1;
      && Run(edges, run[..n]) && Inv(edges, run[n - 1]) && Legal(edges, run[n - 1], k)
      && run[n] == Apply(edges, run[n - 1], k)
      && Delivered(edges, run) == Delivered(edges, run[..n]) + [NextEvent(edges, run[n - 1]).ev]
  {
    hide Init, Apply, Inv, NextEvent, WellFormed;
    var n := |run| - 1;
    PrefixIsRun(edges, run, n);
    ReachableInv(edges, run, n - 1);
    assert Step(edges, run[n - 1], run[n]);
    k := Choice(edges, run[n - 1], run[n]);
  }

  // Start and stop events delivered so far, then those pending, are all of them in order.
  lemma {:induction false} DeliveredThenPending(edges: Edges, run: seq<State>)
    requires ValidEdges(edges) && Run(edges, run)
    ensures Ends(Delivered(edges, run)) + run[|run| - 1].pending == Init(edges).pending
  {
    hide Init, Apply, Legal, Inv, Step, NextEvent, WellFormed, Delivered, Ends;
    var n := |run| - 1;
    if n == 0 {
      NothingDelivered(edges, run);
    } else {
      var k := LastDelivered(edges, run);
      DeliveredThenPending(edges, run[..n]);
      StepDelivers(edges, run[n - 1], k);
      var before, ev := Delivered(edges, run[..n]), NextEvent(edges, run[n - 1]).ev;
      EndsAppend(before, ev);
      Regrouped(Ends(before), if ev.Crossing? then [] else [ev], run[n].pending);
    }
  }

  lemma NothingDelivered(edges: Edges, run: seq<State>)
    requires Run(edges, run) && |run| == 1
    ensures Ends(Delivered(edges, run)) + run[0].pending == Init(edges).pending
  {
    hide Init;
    assert Ends([]) == [];
  }

  lemma Regrouped<T>(a: seq<T>, b: seq<T>, c: seq<T>)
    ensures (a + b) + c == a + (b + c)
    ensures b == [] ==> b + c == c
  {
  }

  lemma {:induction false} EndsMembers(q: seq<Event>)
    ensures forall x :: x in Ends(q) <==> x in q && !x.Crossing?
    ensures Distinct(Ends(q)) ==> forall i, j :: 0 <= i < j < |q| && !q[i].Crossing? ==> q[i] != q[j]
  {
    if q != [] {
      var n := |q| - 1;
      EndsMembers(q[..n]);
      assert q == q[..n] + [q[n]];
      var r := Ends(q[..n]);
      if Distinct(Ends(q)) {
        DistinctPrefix(r, Ends(q));
        if !q[n].Crossing? {
          assert Ends(q)[|r|] == q[n];
          assert q[n] !in r by { LastIsNew(Ends(q)); }
        }
      }
    }
  }

  lemma DistinctPrefix<T>(a: seq<T>, b: seq<T>)
    requires a <= b && Distinct(b)
    ensures Distinct(a)
  {
  }

  lemma LastIsNew<T>(s: seq<T>)
    requires s != [] && Distinct(s)
    ensures s[|s| - 1] !in s[..|s| - 1]
  {
  }

  lemma SortedDistinct(edges: Edges, q: seq<Event>)
    requires ValidEdges(edges) && Sorted(edges, q)
    ensures Distinct(q)
  {
    hide CompareEvents;
    forall i, j | 0 <= i < j < |q| ensures q[i] != q[j] {
      CompareEventsTotal(edges, q[i], q[i]);
    }
  }

  // All start and stop events are there, sorted.
  lemma InitialOrder(edges: Edges)
    requires ValidEdges(edges)
    ensures Sorted(edges, Init(edges).pending)
    ensures forall e :: 0 <= e < |edges| ==> Start(e) in Init(edges).pending && Stop(e) in Init(edges).pending
  {
    StartStopsRefer(edges);
    StartStopsMembers(|edges|);
    SortSorts(edges, StartStops(|edges|));
  }

  // A completed run delivers the start and stop events of the n edges in sorted order,
  // so each exactly once, and every edge starts before it stops.
  lemma DeliveredOnceInOrder(edges: Edges, run: seq<State>, e: nat) returns (i: nat, j: nat)
    requires ValidEdges(edges) && Run(edges, run) && Done(run[|run| - 1]) && e < |edges|
    ensures Ends(Delivered(edges, run)) == Init(edges).pending
    ensures i < j < |Delivered(edges, run)|
    ensures forall m :: 0 <= m < |Delivered(edges, run)| ==>
              (Delivered(edges, run)[m] == Start(e) <==> m == i) && (Delivered(edges, run)[m] == Stop(e) <==> m == j)
  {
    hide CompareEvents, Delivered, Run, Init, Ends;
    DeliveredThenPending(edges, run);
    assert Ends(Delivered(edges, run)) + [] == Ends(Delivered(edges, run));
    InitialOrder(edges);
    i, j := OnceInOrder(edges, Delivered(edges, run), e);
  }

  lemma OnceInOrder(edges: Edges, q: seq<Event>, e: nat) returns (i: nat, j: nat)
    requires ValidEdges(edges) && Sorted(edges, Ends(q)) && e < |edges|
    requires Start(e) in Ends(q) && Stop(e) in Ends(q)
    ensures i < j < |q|
    ensures forall m :: 0 <= m < |q| ==> (q[m] == Start(e) <==> m == i) && (q[m] == Stop(e) <==> m == j)
  {
    hide CompareEvents, Sorted, Ends;
    SortedDistinct(edges, Ends(q));
    EndsMembers(q);
    i :| 0 <= i < |q| && q[i] == Start(e);
    j :| 0 <= j < |q| && q[j] == Stop(e);
    if j < i {
      EndsKeepOrder(q, j, i);
      StartBeforeStop(edges, e);
      InOrder(edges, Ends(q), Stop(e), Start(e));
    }
  }

  predicate Precedes(q: seq<Event>, a: Event, b: Event) {
    exists i, j :: 0 <= i < j < |q| && q[i] == a && q[j] == b
  }

  lemma {:induction false} EndsKeepOrder(q: seq<Event>, i: nat, j: nat)
    requires i < j < |q| && !q[i].Crossing? && !q[j].Crossing?
    ensures Precedes(Ends(q), q[i], q[j])
  {
    var n := |q| - 1;
    var r := Ends(q[..n]);
    if j < n {
      EndsKeepOrder(q[..n], i, j);
      var a, b :| 0 <= a < b < |r| && r[a] == q[i] && r[b] == q[j];
      assert Ends(q)[a] == q[i] && Ends(q)[b] == q[j];
    } else {
      EndsMembers(q[..n]);
      assert q[..n][i] in q[..n];
      assert q[i] in r;
      var a :| 0 <= a < |r| && r[a] == q[i];
      assert Ends(q)[a] == q[i] && Ends(q)[|r|] == q[j];
    }
  }

  lemma InOrder(edges: Edges, q: seq<Event>, a: Event, b: Event)
    requires ValidEdges(edges) && Sorted(edges, q)
    requires Refers(edges, a) && Refers(edges, b) && CompareEvents(edges, b, a) < 0
    ensures !Precedes(q, a, b)
  {
    hide CompareEvents;
    CompareEventsTotal(edges, a, b);
  }
}
