// The event queue as a value: the sorted start and stop events still pending,
// and the sorted intersection events (cairo-bentley-ottmann.c, lines 778-892).
module EventQueue {
  import opened Events

  predicate AllRefer(edges: Edges, q: seq<Event>) {
    forall i :: 0 <= i < |q| ==> Refers(edges, q[i])
  }

  predicate Sorted(edges: Edges, q: seq<Event>) {
    && AllRefer(edges, q)
    && forall i, j :: 0 <= i < j < |q| ==> CompareEvents(edges, q[i], q[j]) < 0
  }

  // _cairo_skip_list_insert with unique set: an equal event is not added twice.
  function Insert(edges: Edges, q: seq<Event>, ev: Event): (r: seq<Event>)
    requires AllRefer(edges, q) && Refers(edges, ev)
    ensures AllRefer(edges, r)
  {
    if q == [] then [ev]
    else
      var c := CompareEvents(edges, q[0], ev);
      if c == 0 then q
      else if c > 0 then [ev] + q
      else [q[0]] + Insert(edges, q[1..], ev)
  }

  lemma {:induction false} InsertKeepsSorted(edges: Edges, q: seq<Event>, ev: Event)
    requires ValidEdges(edges) && Sorted(edges, q) && Refers(edges, ev)
    ensures Sorted(edges, Insert(edges, q, ev))
    ensures forall x :: x in Insert(edges, q, ev) <==> x in q || x == ev
    ensures ev in q ==> Insert(edges, q, ev) == q
    ensures ev !in q ==> |Insert(edges, q, ev)| == |q| + 1
  {
    hide CompareEvents;
    if q != [] {
      var c := CompareEvents(edges, q[0], ev);
      CompareEventsTotal(edges, q[0], ev);
      forall i | 1 <= i < |q| && c > 0
        ensures CompareEvents(edges, ev, q[i]) < 0
      {
        CompareEventsTotal(edges, ev, q[0]);
        CompareEventsTransitive(edges, ev, q[0], q[i]);
        CompareEventsTotal(edges, ev, q[i]);
      }
      if c > 0 {
        CompareEventsTotal(edges, ev, q[0]);
      } else if c < 0 {
        assert q == [q[0]] + q[1..];
        InsertKeepsSorted(edges, q[1..], ev);
        var r := Insert(edges, q[1..], ev);
        forall i | 0 <= i < |r| ensures CompareEvents(edges, q[0], r[i]) < 0 {
          assert r[i] in q[1..] || r[i] == ev;
        }
      }
    }
  }

  // qsort on the start and stop events. The comparison ties only equal events, so
  // there is one sorted arrangement and any sorting routine produces it.
  function Sort(edges: Edges, evs: seq<Event>): (r: seq<Event>)
    requires AllRefer(edges, evs)
    ensures AllRefer(edges, r)
  {
    if evs == [] then [] else Insert(edges, Sort(edges, evs[1..]), evs[0])
  }

  lemma {:induction false} SortSorts(edges: Edges, evs: seq<Event>)
    requires ValidEdges(edges) && AllRefer(edges, evs)
    ensures Sorted(edges, Sort(edges, evs))
    ensures forall x :: x in Sort(edges, evs) <==> x in evs
  {
    hide CompareEvents;
    if evs != [] {
      SortSorts(edges, evs[1..]);
      InsertKeepsSorted(edges, Sort(edges, evs[1..]), evs[0]);
      assert evs == [evs[0]] + evs[1..];
    }
  }

  lemma {:induction false} SortedIsUnique(edges: Edges, a: seq<Event>, b: seq<Event>)
    requires ValidEdges(edges) && Sorted(edges, a) && Sorted(edges, b)
    requires forall x :: x in a <==> x in b
    ensures a == b
  {
    hide CompareEvents;
    SameEmptiness(a, b);
    if a != [] {
      assert a[0] in b;
      assert b[0] in a;
      if a[0] != b[0] {
        var i :| 0 <= i < |b| && b[i] == a[0];
        var j :| 0 <= j < |a| && a[j] == b[0];
        CompareEventsTotal(edges, a[0], b[0]);
      }
      assert a == [a[0]] + a[1..] && b == [b[0]] + b[1..];
      TailMembers(edges, a, b);
      SortedIsUnique(edges, a[1..], b[1..]);
    }
  }

  lemma SameEmptiness(a: seq<Event>, b: seq<Event>)
    requires forall x :: x in a <==> x in b
    ensures a == [] <==> b == []
  {
    if a != [] { assert a[0] in b; }
    if b != [] { assert b[0] in a; }
  }

  lemma TailMembers(edges: Edges, a: seq<Event>, b: seq<Event>)
    requires ValidEdges(edges) && Sorted(edges, a) && Sorted(edges, b)
    requires a != [] && b != [] && a[0] == b[0]
    requires forall x :: x in a <==> x in b
    ensures forall x :: x in a[1..] <==> x in b[1..]
  {
    NotInTail(edges, a);
    NotInTail(edges, b);
    assert a == [a[0]] + a[1..] && b == [b[0]] + b[1..];
  }

  lemma NotInTail(edges: Edges, q: seq<Event>)
    requires ValidEdges(edges) && Sorted(edges, q) && q != []
    ensures q[0] !in q[1..]
    ensures Sorted(edges, q[1..])
    ensures forall x :: x in q <==> x in q[1..] || x == q[0]
  {
    hide CompareEvents;
    CompareEventsTotal(edges, q[0], q[0]);
    assert q == [q[0]] + q[1..];
  }

  // ---- The start and stop events of n edges, in array order ----

  function StartStops(n: nat): seq<Event> {
    if n == 0 then [] else StartStops(n - 1) + [Start(n - 1), Stop(n - 1)]
  }

  lemma {:induction false} StartStopsMembers(n: nat)
    ensures |StartStops(n)| == 2 * n
    ensures forall x :: x in StartStops(n) <==> (x.Start? || x.Stop?) && x.edge < n
  {
    if n > 0 {
      StartStopsMembers(n - 1);
    }
  }

  // ---- _cairo_bo_event_dequeue ----

  datatype Dequeued = Nothing | Pending(ev: Event) | Queued(ev: Event)

  function Next(edges: Edges, pending: seq<Event>, crossings: seq<Event>): Dequeued
    requires AllRefer(edges, pending) && AllRefer(edges, crossings)
  {
    if pending == [] then (if crossings == [] then Nothing else Queued(crossings[0]))
    else if crossings == [] || CompareEvents(edges, pending[0], crossings[0]) <= 0 then Pending(pending[0])
    else Queued(crossings[0])
  }

  // The event dequeued is the least of all waiting events; nothing is dequeued
  // only when nothing waits.
  lemma NextIsMinimum(edges: Edges, pending: seq<Event>, crossings: seq<Event>)
    requires ValidEdges(edges) && Sorted(edges, pending) && Sorted(edges, crossings)
    ensures var d := Next(edges, pending, crossings);
      && (d.Nothing? <==> pending == [] && crossings == [])
      && (!d.Nothing? ==>
           && (d.ev in pending || d.ev in crossings)
           && (forall x :: x in pending || x in crossings ==> CompareEvents(edges, d.ev, x) <= 0))
  {
    hide CompareEvents;
    var d := Next(edges, pending, crossings);
    if !d.Nothing? {
      CompareEventsTotal(edges, d.ev, d.ev);
      forall x | x in pending || x in crossings
        ensures CompareEvents(edges, d.ev, x) <= 0
      {
        if pending != [] && crossings != [] {
          CompareEventsTotal(edges, pending[0], crossings[0]);
          CompareEventsTotal(edges, pending[0], pending[0]);
          CompareEventsTotal(edges, crossings[0], crossings[0]);
          if x in pending {
            CompareEventsTransitive(edges, d.ev, pending[0], x);
          } else {
            CompareEventsTransitive(edges, d.ev, crossings[0], x);
          }
        }
      }
    }
  }
}
