// The sweep fills what a brute-force scanline fills: at every row where nothing
// happens, the emitted trapezoids cover exactly the points whose winding number
// (or parity) puts them inside (cairo-bentley-ottmann.c, lines 1303-1499).
module Scanline {
  import opened Geometry
  import opened Intersect
  import opened Events
  import opened EventQueue
  import opened Sweep
  import opened Trapezoids
  import opened Order
  import opened SweepOrder

  // ---- The brute-force fill ----

  ghost predicate Spans(e: Edge, y: real) {
    e.top.y as real < y < e.bottom.y as real
  }

  // Edge e is crossed by a ray from the far left to (x, y).
  ghost predicate CrossedBy(edges: Edges, e: nat, x: real, y: real)
    requires ValidEdges(edges) && e < |edges|
  {
    Spans(edges[e], y) && XAt(edges[e], y) < x
  }

  // The count of the first n edges crossed: the winding number, or their number.
  ghost function Crossed(edges: Edges, rule: FillRule, x: real, y: real, n: nat): int
    requires ValidEdges(edges) && n <= |edges|
  {
    if n == 0 then 0
    else if CrossedBy(edges, n - 1, x, y)
    then Turn(rule, edges[n - 1], Crossed(edges, rule, x, y, n - 1))
    else Crossed(edges, rule, x, y, n - 1)
  }

  // (x, y) is filled: inside by the rule, and not beyond the last edge. For closed
  // polygons the second condition follows from the first.
  ghost predicate Filled(edges: Edges, rule: FillRule, x: real, y: real)
    requires ValidEdges(edges)
  {
    && Inside(rule, Crossed(edges, rule, x, y, |edges|))
    && exists e :: 0 <= e < |edges| && Spans(edges[e], y) && XAt(edges[e], y) > x
  }

  // How many of the first n edges are crossed in one direction.
  ghost function CrossedGoing(edges: Edges, reversed: bool, x: real, y: real, n: nat): nat
    requires ValidEdges(edges) && n <= |edges|
  {
    if n == 0 then 0
    else CrossedGoing(edges, reversed, x, y, n - 1)
         + if CrossedBy(edges, n - 1, x, y) && edges[n - 1].reversed == reversed then 1 else 0
  }

  lemma {:induction false} CrossedIsCounted(edges: Edges, rule: FillRule, x: real, y: real, n: nat)
    requires ValidEdges(edges) && n <= |edges|
    ensures var a, b := CrossedGoing(edges, true, x, y, n), CrossedGoing(edges, false, x, y, n);
      Crossed(edges, rule, x, y, n) == if rule.Winding? then a - b else a + b
  {
    hide CrossedBy;
    if n > 0 { CrossedIsCounted(edges, rule, x, y, n - 1); }
  }

  // The fill rules in their own terms: not as many edges up as down, or an odd number.
  lemma FilledByRule(edges: Edges, rule: FillRule, x: real, y: real)
    requires ValidEdges(edges)
    ensures var a, b := CrossedGoing(edges, true, x, y, |edges|), CrossedGoing(edges, false, x, y, |edges|);
      Filled(edges, rule, x, y) <==>
        && (if rule.Winding? then a != b else (a + b) % 2 == 1)
        && exists e :: 0 <= e < |edges| && Spans(edges[e], y) && XAt(edges[e], y) > x
  {
    CrossedIsCounted(edges, rule, x, y, |edges|);
    hide CrossedBy, Spans, XAt, CrossedGoing, Crossed;
  }

  // Nothing happens on row y: no edge ends there, no two edges cross there.
  ghost predicate QuietRow(edges: Edges, y: real)
    requires ValidEdges(edges)
  {
    && (forall e :: 0 <= e < |edges| ==> edges[e].top.y as real != y && edges[e].bottom.y as real != y)
    && (forall i, j :: 0 <= i < |edges| && 0 <= j < |edges| && CrossInside(edges[i], edges[j]) ==>
          CrossY(edges[i], edges[j]) != y)
  }

  ghost predicate OffEdges(edges: Edges, x: real, y: real)
    requires ValidEdges(edges)
  {
    forall e :: 0 <= e < |edges| && Spans(edges[e], y) ==> XAt(edges[e], y) != x
  }

  // ---- What trapezoids cover ----

  ghost predicate CoversPoint(edges: Edges, s: Strip, x: real, y: real)
    requires ValidEdges(edges)
  {
    && s.left < |edges| && s.right < |edges|
    && s.top as real <= y < s.bottom as real
    && XAt(edges[s.left], y) < x < XAt(edges[s.right], y)
  }

  ghost predicate Covered(edges: Edges, strips: seq<Strip>, x: real, y: real)
    requires ValidEdges(edges)
  {
    exists i :: 0 <= i < |strips| && CoversPoint(edges, strips[i], x, y)
  }

  // ---- Counting along the line is counting over all edges ----

  function Sum(edges: Edges, rule: FillRule, ids: seq<nat>): int
    requires KnownLine(edges, ids)
  {
    if ids == [] then 0
    else Turn(rule, edges[ids[|ids| - 1]], Sum(edges, rule, ids[..|ids| - 1]))
  }

  lemma {:induction false} InOutIsSum(edges: Edges, rule: FillRule, line: seq<nat>, k: nat)
    requires KnownLine(edges, line) && k <= |line|
    ensures InOut(edges, rule, line, k) == Sum(edges, rule, line[..k])
  {
    if k > 0 {
      InOutIsSum(edges, rule, line, k - 1);
      assert line[..k][..k - 1] == line[..k - 1];
    }
  }

  lemma {:induction false} SumWithout(edges: Edges, rule: FillRule, ids: seq<nat>, i: nat)
    requires KnownLine(edges, ids) && i < |ids|
    ensures KnownLine(edges, DeleteAt(ids, i))
    ensures Sum(edges, rule, ids) == Turn(rule, edges[ids[i]], Sum(edges, rule, DeleteAt(ids, i)))
    decreases |ids|
  {
    var n := |ids| - 1;
    if i == n {
      assert DeleteAt(ids, i) == ids[..n];
    } else {
      SumWithout(edges, rule, ids[..n], i);
      assert DeleteAt(ids, i)[..n - 1] == DeleteAt(ids[..n], i);
      assert DeleteAt(ids, i)[n - 1] == ids[n];
    }
  }

  // A list of exactly the crossed edges among the first n sums to their count.
  lemma {:induction false} SumIsCrossed(edges: Edges, rule: FillRule, ids: seq<nat>, x: real, y: real, n: nat)
    requires ValidEdges(edges) && n <= |edges| && KnownLine(edges, ids) && Distinct(ids)
    requires forall e :: e in ids <==> 0 <= e < n && CrossedBy(edges, e, x, y)
    ensures Sum(edges, rule, ids) == Crossed(edges, rule, x, y, n)
    decreases n
  {
    hide CrossedBy, Turn;
    if n == 0 {
      if ids != [] { HeadIsMember(ids); }
    } else if CrossedBy(edges, n - 1, x, y) {
      var i :| 0 <= i < |ids| && ids[i] == n - 1;
      SumWithout(edges, rule, ids, i);
      DeleteAtMembers(ids, i);
      SumIsCrossed(edges, rule, DeleteAt(ids, i), x, y, n - 1);
    } else {
      SumIsCrossed(edges, rule, ids, x, y, n - 1);
    }
  }

  // ---- One pass ----

  // The line holds exactly the edges spanning row y, from left to right.
  ghost predicate TrueOrder(edges: Edges, line: seq<nat>, y: real)
    requires ValidEdges(edges)
  {
    && KnownLine(edges, line) && Distinct(line)
    && (forall e :: 0 <= e < |edges| ==> (e in line <==> Spans(edges[e], y)))
    && (forall i, j :: 0 <= i < j < |line| ==> XAt(edges[line[i]], y) <= XAt(edges[line[j]], y))
  }

  // The number of edges of the line left of x.
  ghost function LeftOf(edges: Edges, line: seq<nat>, x: real, y: real): (k: nat)
    requires ValidEdges(edges) && KnownLine(edges, line)
    ensures k <= |line|
    ensures forall i :: 0 <= i < k ==> XAt(edges[line[i]], y) < x
    ensures k < |line| ==> XAt(edges[line[k]], y) >= x
  {
    if line == [] || XAt(edges[line[0]], y) >= x then 0
    else
      var k := LeftOf(edges, line[1..], x, y);
      assert forall i :: 1 <= i < k + 1 ==> line[i] == line[1..][i - 1];
      k + 1
  }

  lemma CountedOnLine(edges: Edges, rule: FillRule, line: seq<nat>, x: real, y: real)
    requires ValidEdges(edges) && TrueOrder(edges, line, y)
    ensures InOut(edges, rule, line, LeftOf(edges, line, x, y)) == Crossed(edges, rule, x, y, |edges|)
  {
    hide XAt, Spans;
    var k := LeftOf(edges, line, x, y);
    forall e | 0 <= e < |edges| && CrossedBy(edges, e, x, y) ensures e in line[..k] {
      assert e in line;
      var i :| 0 <= i < |line| && line[i] == e;
      assert i < k;
    }
    forall e | e in line[..k] ensures 0 <= e < |edges| && CrossedBy(edges, e, x, y) {
      assert e in line;
    }
    InOutIsSum(edges, rule, line, k);
    SumIsCrossed(edges, rule, line[..k], x, y, |edges|);
  }

  lemma {:induction false} EagerMembers(edges: Edges, rule: FillRule, line: seq<nat>, i: nat, top: int, bottom: int,
                                        s: Strip)
    requires KnownLine(edges, line) && i <= |line|
    ensures s in Eager(edges, rule, line, i, InOut(edges, rule, line, i), top, bottom)
        <==> exists j :: i <= j && j + 1 < |line| && Opens(edges, rule, line, j)
               && !SameEnds(edges[line[j]], edges[line[j + 1]]) && s == Strip(line[j], line[j + 1], top, bottom)
    decreases |line| - i
  {
    hide SameEnds, Inside;
    if i < |line| {
      EagerMembers(edges, rule, line, i + 1, top, bottom, s);
      if Opens(edges, rule, line, i) && !SameEnds(edges[line[i]], edges[line[i + 1]])
         && s == Strip(line[i], line[i + 1], top, bottom) {
        assert s in Eager(edges, rule, line, i, InOut(edges, rule, line, i), top, bottom);
      }
    }
  }

  lemma EagerFromStart(edges: Edges, rule: FillRule, line: seq<nat>, top: int, bottom: int, s: Strip)
    requires KnownLine(edges, line)
    ensures s in Eager(edges, rule, line, 0, 0, top, bottom)
        <==> exists j :: 0 <= j && j + 1 < |line| && Opens(edges, rule, line, j)
               && !SameEnds(edges[line[j]], edges[line[j + 1]]) && s == Strip(line[j], line[j + 1], top, bottom)
  {
    EagerMembers(edges, rule, line, 0, top, bottom, s);
  }

  // Two neighbours of a row in true order bracket x only around position LeftOf.
  lemma BracketIsUnique(edges: Edges, line: seq<nat>, x: real, y: real, j: nat)
    requires ValidEdges(edges) && TrueOrder(edges, line, y) && j + 1 < |line|
    requires XAt(edges[line[j]], y) < x < XAt(edges[line[j + 1]], y)
    ensures LeftOf(edges, line, x, y) == j + 1
  {
    hide XAt, Spans;
  }

  lemma SameEndsSameLine(a: Edge, b: Edge, y: real)
    requires Downward(a) && Downward(b) && SameEnds(a, b)
    ensures XAt(a, y) == XAt(b, y)
  {
  }

  // A strip of the pass that covers the point is between the edges on either side of it.
  lemma StripOverPoint(edges: Edges, rule: FillRule, line: seq<nat>, top: int, bottom: int, x: real, y: real, s: Strip)
    requires ValidEdges(edges) && TrueOrder(edges, line, y) && OffEdges(edges, x, y) && KnownLine(edges, line)
    requires s in Eager(edges, rule, line, 0, 0, top, bottom) && CoversPoint(edges, s, x, y)
    ensures var k := LeftOf(edges, line, x, y);
      0 < k < |line| && s.left == line[k - 1] && s.right == line[k] && Opens(edges, rule, line, k - 1)
  {
    EagerFromStart(edges, rule, line, top, bottom, s);
    hide XAt, Spans, Eager, SameEnds, Opens;
    var j :| 0 <= j && j + 1 < |line| && Opens(edges, rule, line, j)
             && !SameEnds(edges[line[j]], edges[line[j + 1]]) && s == Strip(line[j], line[j + 1], top, bottom);
    BracketIsUnique(edges, line, x, y, j);
  }

  // An eager pass over a line in true order covers exactly the filled points of the
  // row, and all its strips over one point are between one pair of edges.
  lemma PassFills(edges: Edges, rule: FillRule, line: seq<nat>, top: int, bottom: int, x: real, y: real)
    requires ValidEdges(edges) && TrueOrder(edges, line, y) && OffEdges(edges, x, y)
    requires top as real <= y < bottom as real
    ensures Covered(edges, Eager(edges, rule, line, 0, 0, top, bottom), x, y) <==> Filled(edges, rule, x, y)
    ensures forall s :: s in Eager(edges, rule, line, 0, 0, top, bottom) && CoversPoint(edges, s, x, y) ==>
              var k := LeftOf(edges, line, x, y);
              0 < k < |line| && s.left == line[k - 1] && s.right == line[k]
  {
    hide XAt, Spans, Eager, SameEnds, Inside, InOut, Crossed;
    var strips, k := Eager(edges, rule, line, 0, 0, top, bottom), LeftOf(edges, line, x, y);
    forall s | s in strips && CoversPoint(edges, s, x, y)
      ensures 0 < k < |line| && s.left == line[k - 1] && s.right == line[k]
    {
      StripOverPoint(edges, rule, line, top, bottom, x, y, s);
    }
    CountedOnLine(edges, rule, line, x, y);
    if Filled(edges, rule, x, y) {
      FilledIsCovered(edges, rule, line, top, bottom, x, y);
    }
    if Covered(edges, strips, x, y) {
      var i :| 0 <= i < |strips| && CoversPoint(edges, strips[i], x, y);
      StripOverPoint(edges, rule, line, top, bottom, x, y, strips[i]);
      assert line[k] in line && XAt(edges[line[k]], y) > x;
    }
  }

  // The strip around a filled point begins at the last edge left of it.
  lemma OpensLeft(edges: Edges, rule: FillRule, line: seq<nat>, x: real, y: real) returns (k: nat)
    requires ValidEdges(edges) && TrueOrder(edges, line, y) && OffEdges(edges, x, y) && Filled(edges, rule, x, y)
    ensures 0 < k < |line| && Opens(edges, rule, line, k - 1)
    ensures XAt(edges[line[k - 1]], y) < x < XAt(edges[line[k]], y)
  {
    hide XAt, Spans, Turn;
    k := LeftOf(edges, line, x, y);
    CountedOnLine(edges, rule, line, x, y);
    assert k > 0;
    hide InOut, Crossed;
    var e :| 0 <= e < |edges| && Spans(edges[e], y) && XAt(edges[e], y) > x;
    assert e in line;
    var i :| 0 <= i < |line| && line[i] == e;
    assert k < |line|;
    assert line[k - 1] in line && line[k] in line;
  }

  lemma FilledIsCovered(edges: Edges, rule: FillRule, line: seq<nat>, top: int, bottom: int, x: real, y: real)
    requires ValidEdges(edges) && TrueOrder(edges, line, y) && OffEdges(edges, x, y)
    requires top as real <= y < bottom as real && Filled(edges, rule, x, y)
    ensures Covered(edges, Eager(edges, rule, line, 0, 0, top, bottom), x, y)
  {
    hide XAt, Spans, Eager, SameEnds, Opens, Filled, TrueOrder, OffEdges;
    assert KnownLine(edges, line) by { LineIsKnown(edges, line, y); }
    var k := OpensLeft(edges, rule, line, x, y);
    var strips := Eager(edges, rule, line, 0, 0, top, bottom);
    var s := Strip(line[k - 1], line[k], top, bottom);
    if SameEnds(edges[line[k - 1]], edges[line[k]]) {
      SameEndsSameLine(edges[line[k - 1]], edges[line[k]], y);
      assert false;
    }
    EagerFromStart(edges, rule, line, top, bottom, s);
    assert Opens(edges, rule, line, k - 1) && line[k - 1 + 1] == line[k];
    assert s in strips;
    var n :| 0 <= n < |strips| && strips[n] == s;
    assert CoversPoint(edges, strips[n], x, y);
  }

  lemma LineIsKnown(edges: Edges, line: seq<nat>, y: real)
    requires ValidEdges(edges) && TrueOrder(edges, line, y)
    ensures KnownLine(edges, line)
  {
    hide XAt, Spans;
  }

  // ---- Along a run ----

  // Edges whose stop event is gone end at or above the current row.
  predicate StoppedAbove(edges: Edges, s: State) {
    forall e :: 0 <= e < |edges| && Stop(e) !in s.pending ==> edges[e].bottom.y <= s.y
  }

  lemma StepStoppedAbove(edges: Edges, s: State, k: nat)
    requires Inv(edges, s) && Legal(edges, s, k) && StoppedAbove(edges, s) && NextRow(edges, s) >= s.y
    ensures StoppedAbove(edges, Apply(edges, s, k))
  {
    hide CompareEvents, CompareEdges, Sorted, QueueMeeting;
    TakenWaits(edges, s);
  }

  lemma InitStoppedAbove(edges: Edges)
    ensures StoppedAbove(edges, Init(edges))
    requires ValidEdges(edges)
  {
    hide CompareEvents;
    StartStopsRefer(edges);
    StartStopsMembers(|edges|);
    SortSorts(edges, StartStops(|edges|));
  }

  lemma {:induction false} ReachableOrder(edges: Edges, rule: FillRule, run: seq<Full>, i: nat) returns (p: Pos)
    requires ValidEdges(edges) && AllInRange(edges) && IntegerCrossings(edges)
    requires RunFull(edges, rule, run) && i < |run|
    ensures OrderInv(edges, run[i].core, p) && StoppedAbove(edges, run[i].core)
  {
    hide OrderInv, ApplyFull, StoppedAbove, IntegerCrossings, AllInRange, ValidEdges;
    if i == 0 {
      InitOrderInv(edges);
      InitStoppedAbove(edges);
      p := START;
    } else {
      var o := ReachableOrder(edges, rule, run, i - 1);
      assert StepFull(edges, rule, run[i - 1], run[i]);
      var k := FullChoice(edges, rule, run[i - 1], run[i]);
      p := OneMore(edges, rule, run[i - 1], o, k);
    }
  }

  lemma OneMore(edges: Edges, rule: FillRule, f: Full, o: Pos, k: nat) returns (p: Pos)
    requires WellFormedFull(edges, f) && Legal(edges, f.core, k)
    requires OrderInv(edges, f.core, o) && StoppedAbove(edges, f.core)
    ensures OrderInv(edges, ApplyFull(edges, rule, f, k).core, p)
    ensures StoppedAbove(edges, ApplyFull(edges, rule, f, k).core)
  {
    StepKeepsOrder(edges, f.core, o, k);
    ApplyFullCore(edges, rule, f, k);
    StepRow(edges, rule, f, k);
    StepStoppedAbove(edges, f.core, k);
    p := PosOf(At(edges, NextEvent(edges, f.core).ev));
  }

  lemma RowsRise(edges: Edges, rule: FillRule, run: seq<Full>, i: nat)
    requires ValidEdges(edges) && AllInRange(edges) && IntegerCrossings(edges)
    requires RunFull(edges, rule, run) && 0 < i < |run|
    ensures run[i - 1].core.y <= run[i].core.y
  {
    hide OrderInv, ApplyFull, IntegerCrossings, AllInRange, StoppedAbove;
    var o := ReachableOrder(edges, rule, run, i - 1);
    assert StepFull(edges, rule, run[i - 1], run[i]);
    var k := FullChoice(edges, rule, run[i - 1], run[i]);
    StepKeepsOrder(edges, run[i - 1].core, o, k);
    ApplyFullCore(edges, rule, run[i - 1], k);
  }

  // The next event's row is a row where something happens.
  lemma EventRowIsNotQuiet(edges: Edges, s: State, p: Pos, y: real)
    requires OrderInv(edges, s, p) && !NextEvent(edges, s).Nothing? && QuietRow(edges, y)
    ensures y != NextRow(edges, s) as real
  {
    hide Sorted, CompareEvents, IntegerCrossings, LineOrdered, ExactMiddles, CrossX, CrossY, CrossInside, AllQueued;
    NextIsMinimum(edges, s.pending, s.crossings);
    TakenWaits(edges, s);
  }

  // Strictly between the current row and the next event's, the line is in true order.
  lemma LineIsTrue(edges: Edges, s: State, p: Pos, y: real)
    requires OrderInv(edges, s, p) && StoppedAbove(edges, s) && !NextEvent(edges, s).Nothing?
    requires (s.y as real) < y || s.line == []
    requires s.y as real <= y < NextRow(edges, s) as real
    ensures TrueOrder(edges, s.line, y)
  {
    SpansExactly(edges, s, p, y);
    OrderedThere(edges, s, p, y);
    DistinctLine(edges, s);
  }

  lemma SpansExactly(edges: Edges, s: State, p: Pos, y: real)
    requires OrderInv(edges, s, p) && StoppedAbove(edges, s) && !NextEvent(edges, s).Nothing?
    requires (s.y as real) < y || s.line == []
    requires s.y as real <= y < NextRow(edges, s) as real
    ensures forall e :: 0 <= e < |edges| ==> (e in s.line <==> Spans(edges[e], y))
  {
    hide Sorted, CompareEvents, IntegerCrossings, LineOrdered, ExactMiddles, AllQueued, ExactCrossing;
    forall e | 0 <= e < |edges|
      ensures e in s.line <==> Spans(edges[e], y)
    {
      if e in s.line {
        assert Stop(e) in s.pending;
        NextFirst(edges, s, Stop(e));
        assert !Precedes(p, PosOf(edges[e].top));
      } else if Start(e) in s.pending {
        NextFirst(edges, s, Start(e));
      }
    }
  }

  lemma OrderedThere(edges: Edges, s: State, p: Pos, y: real)
    requires OrderInv(edges, s, p) && !NextEvent(edges, s).Nothing?
    requires (s.y as real) < y || s.line == []
    requires s.y as real <= y < NextRow(edges, s) as real
    ensures forall i, j :: 0 <= i < j < |s.line| ==> XAt(edges[s.line[i]], y) <= XAt(edges[s.line[j]], y)
  {
    if s.line != [] {
      hide Sorted, CompareEvents, IntegerCrossings, LineOrdered, ExactMiddles, AllQueued, ExactCrossing, XAt, Slope;
      var q := Pos(0.0, y);
      BottomsAhead(edges, s);
      forall c | c in s.crossings ensures c.Crossing? && !Precedes(PosOf(c.at), q) {
        NextFirst(edges, s, c);
      }
      OrderAhead(edges, s, p, q);
      forall i, j | 0 <= i < j < |s.line|
        ensures XAt(edges[s.line[i]], y) <= XAt(edges[s.line[j]], y)
      {
        assert OrderedBefore(edges[s.line[i]], edges[s.line[j]], q);
      }
    }
  }

  // ---- The eager record of a run covers the filled points of every quiet row passed ----

  ghost predicate OnePair(edges: Edges, strips: seq<Strip>, x: real, y: real)
    requires ValidEdges(edges)
  {
    forall s, t :: s in strips && t in strips && CoversPoint(edges, s, x, y) && CoversPoint(edges, t, x, y) ==>
      s.left == t.left && s.right == t.right
  }

  lemma CoveredAppend(edges: Edges, a: seq<Strip>, b: seq<Strip>, x: real, y: real)
    requires ValidEdges(edges)
    ensures Covered(edges, a + b, x, y) <==> Covered(edges, a, x, y) || Covered(edges, b, x, y)
    ensures !Covered(edges, a, x, y) && OnePair(edges, b, x, y) ==> OnePair(edges, a + b, x, y)
    ensures !Covered(edges, b, x, y) && OnePair(edges, a, x, y) ==> OnePair(edges, a + b, x, y)
  {
    hide CoversPoint;
    var c := a + b;
    forall i | 0 <= i < |c| && CoversPoint(edges, c[i], x, y)
      ensures Covered(edges, a, x, y) || Covered(edges, b, x, y)
    {
      if i < |a| { assert CoversPoint(edges, a[i], x, y); } else { assert CoversPoint(edges, b[i - |a|], x, y); }
    }
    forall i | 0 <= i < |a| && CoversPoint(edges, a[i], x, y) ensures Covered(edges, c, x, y) {
      assert CoversPoint(edges, c[i], x, y);
    }
    forall i | 0 <= i < |b| && CoversPoint(edges, b[i], x, y) ensures Covered(edges, c, x, y) {
      assert CoversPoint(edges, c[|a| + i], x, y);
    }
  }

  lemma NothingAbove(edges: Edges, strips: seq<Strip>, row: int, x: real, y: real)
    requires ValidEdges(edges) && y < row as real
    requires forall i :: 0 <= i < |strips| ==> strips[i].top >= row
    ensures !Covered(edges, strips, x, y)
  {
    hide XAt;
  }

  lemma NothingBelow(edges: Edges, strips: seq<Strip>, row: int, x: real, y: real)
    requires ValidEdges(edges) && y >= row as real
    requires forall i :: 0 <= i < |strips| ==> strips[i].bottom <= row
    ensures !Covered(edges, strips, x, y)
  {
    hide XAt;
  }

  lemma ApplyFullEager(edges: Edges, rule: FillRule, f: Full, k: nat)
    requires WellFormedFull(edges, f) && Legal(edges, f.core, k)
    ensures var y, z, g := f.core.y, NextRow(edges, f.core), ApplyFull(edges, rule, f, k);
      && g.core.y == z
      && g.eager == if z == y then f.eager else f.eager + Eager(edges, rule, f.core.line, 0, 0, y, z)
  {
    StepRow(edges, rule, f, k);
  }

  // The rows from the current one to the next event's, seen by the pass between them.
  lemma PassedRows(edges: Edges, rule: FillRule, f: Full, p: Pos, k: nat, x: real, y: real)
    requires ValidEdges(edges) && WellFormedFull(edges, f) && Legal(edges, f.core, k)
    requires OrderInv(edges, f.core, p) && StoppedAbove(edges, f.core)
    requires QuietRow(edges, y) && OffEdges(edges, x, y)
    requires (f.core.y as real) < y || f.core.line == []
    requires f.core.y as real <= y < NextRow(edges, f.core) as real
    requires forall i :: 0 <= i < |f.eager| ==> f.eager[i].bottom <= f.core.y
    ensures var g := ApplyFull(edges, rule, f, k);
      (Covered(edges, g.eager, x, y) <==> Filled(edges, rule, x, y)) && OnePair(edges, g.eager, x, y)
  {
    hide OrderInv, ApplyFull, Eager, CoversPoint, Covered, Filled, TrueOrder, QuietRow, OffEdges, StoppedAbove,
         ValidEdges;
    ApplyFullEager(edges, rule, f, k);
    LineIsTrue(edges, f.core, p, y);
    var row, z := f.core.y, NextRow(edges, f.core);
    var strips := Eager(edges, rule, f.core.line, 0, 0, row, z);
    PassFills(edges, rule, f.core.line, row, z, x, y);
    NothingBelow(edges, f.eager, row, x, y);
    CoveredAppend(edges, f.eager, strips, x, y);
  }

  lemma PassedAlready(edges: Edges, rule: FillRule, f: Full, k: nat, x: real, y: real)
    requires ValidEdges(edges) && WellFormedFull(edges, f) && Legal(edges, f.core, k)
    requires y < f.core.y as real
    requires (Covered(edges, f.eager, x, y) <==> Filled(edges, rule, x, y)) && OnePair(edges, f.eager, x, y)
    ensures var g := ApplyFull(edges, rule, f, k);
      (Covered(edges, g.eager, x, y) <==> Filled(edges, rule, x, y)) && OnePair(edges, g.eager, x, y)
  {
    ApplyFullEager(edges, rule, f, k);
    hide ApplyFull, Eager, CoversPoint, Covered, Filled;
    var row, z := f.core.y, NextRow(edges, f.core);
    var strips := Eager(edges, rule, f.core.line, 0, 0, row, z);
    if z != row {
      EagerBottoms(edges, rule, f.core.line, 0, 0, row, z);
      NothingAbove(edges, strips, row, x, y);
      CoveredAppend(edges, f.eager, strips, x, y);
    }
  }

  // The rows of eager strips end at or above the current row.
  lemma NothingYet(edges: Edges)
    ensures InitFull(edges).eager == []
  {
  }

  lemma {:induction false} EagerAbove(edges: Edges, rule: FillRule, run: seq<Full>, i: nat)
    requires ValidEdges(edges) && AllInRange(edges) && IntegerCrossings(edges)
    requires RunFull(edges, rule, run) && i < |run|
    ensures forall j :: 0 <= j < |run[i].eager| ==> run[i].eager[j].bottom <= run[i].core.y
  {
    hide ApplyFull, Eager, IntegerCrossings, Legal, InitFull;
    if i == 0 {
      NothingYet(edges);
    } else {
      EagerAbove(edges, rule, run, i - 1);
      RowsRise(edges, rule, run, i);
      assert StepFull(edges, rule, run[i - 1], run[i]);
      var k := FullChoice(edges, rule, run[i - 1], run[i]);
      ApplyFullEager(edges, rule, run[i - 1], k);
      EagerBottoms(edges, rule, run[i - 1].core.line, 0, 0, run[i - 1].core.y, run[i].core.y);
    }
  }

  // After the first iteration the current row is a row where something happens.
  lemma CurrentRowIsNotQuiet(edges: Edges, rule: FillRule, run: seq<Full>, i: nat, y: real)
    requires ValidEdges(edges) && AllInRange(edges) && IntegerCrossings(edges)
    requires RunFull(edges, rule, run) && i < |run| && QuietRow(edges, y)
    ensures run[i].core.y as real != y || run[i].core.line == []
  {
    if i > 0 {
      hide ApplyFull, OrderInv, QuietRow, IntegerCrossings, AllInRange, StoppedAbove, Legal, NextRow;
      var o := ReachableOrder(edges, rule, run, i - 1);
      assert StepFull(edges, rule, run[i - 1], run[i]);
      var k := FullChoice(edges, rule, run[i - 1], run[i]);
      StepIsNotQuiet(edges, rule, run[i - 1], o, k, y);
    }
  }

  lemma StepIsNotQuiet(edges: Edges, rule: FillRule, f: Full, o: Pos, k: nat, y: real)
    requires ValidEdges(edges) && WellFormedFull(edges, f) && Legal(edges, f.core, k)
    requires OrderInv(edges, f.core, o) && QuietRow(edges, y)
    ensures ApplyFull(edges, rule, f, k).core.y as real != y
  {
    hide ApplyFull, OrderInv, QuietRow, NextRow;
    StepRow(edges, rule, f, k);
    EventRowIsNotQuiet(edges, f.core, o, y);
  }

  lemma {:induction false} EagerFills(edges: Edges, rule: FillRule, run: seq<Full>, i: nat, x: real, y: real)
    requires ValidEdges(edges) && AllInRange(edges) && IntegerCrossings(edges)
    requires RunFull(edges, rule, run) && i < |run|
    requires QuietRow(edges, y) && OffEdges(edges, x, y) && 0.0 <= y < run[i].core.y as real
    ensures (Covered(edges, run[i].eager, x, y) <==> Filled(edges, rule, x, y)) && OnePair(edges, run[i].eager, x, y)
  {
    hide OrderInv, ApplyFull, Covered, Filled, OnePair, QuietRow, OffEdges, IntegerCrossings, AllInRange, StoppedAbove;
    if i > 0 {
      var f := run[i - 1];
      var o := ReachableOrder(edges, rule, run, i - 1);
      assert StepFull(edges, rule, f, run[i]);
      var k := FullChoice(edges, rule, f, run[i]);
      if y < f.core.y as real {
        EagerFills(edges, rule, run, i - 1, x, y);
        PassedAlready(edges, rule, f, k, x, y);
      } else {
        CurrentRowIsNotQuiet(edges, rule, run, i - 1, y);
        EagerAbove(edges, rule, run, i - 1);
        StepRow(edges, rule, f, k);
        PassedRows(edges, rule, f, o, k, x, y);
      }
    }
  }

  // ---- From the eager record to the emitted trapezoids ----

  lemma {:induction false} CountWitness(strips: seq<Strip>, l: nat, r: nat, row: int)
    requires Count(strips, l, r, row) >= 1
    ensures exists s :: s in strips && Covers(s, l, r, row)
  {
    var n := |strips| - 1;
    if Covers(strips[n], l, r, row) {
      assert strips[n] in strips;
    } else {
      CountWitness(strips[..n], l, r, row);
      var s :| s in strips[..n] && Covers(s, l, r, row);
      assert s in strips;
    }
  }

  lemma {:induction false} CountAtLeast(strips: seq<Strip>, i: nat, l: nat, r: nat, row: int)
    requires i < |strips| && Covers(strips[i], l, r, row)
    ensures Count(strips, l, r, row) >= 1
    ensures forall j :: i < j < |strips| && Covers(strips[j], l, r, row) ==> Count(strips, l, r, row) >= 2
  {
    hide Covers;
    var n := |strips| - 1;
    if i < n {
      CountAtLeast(strips[..n], i, l, r, row);
      assert forall j :: i < j < n && Covers(strips[j], l, r, row) ==> Covers(strips[..n][j], l, r, row);
    }
  }

  lemma CoversItsRow(edges: Edges, s: Strip, t: Strip, x: real, y: real)
    requires ValidEdges(edges) && s.left < |edges| && s.right < |edges|
    ensures CoversPoint(edges, s, x, y) ==> Covers(s, s.left, s.right, y.Floor)
    ensures CoversPoint(edges, s, x, y) && Covers(t, s.left, s.right, y.Floor) ==> CoversPoint(edges, t, x, y)
  {
    hide XAt;
  }

  // Lists that count alike cover alike; if one covers a point with one pair of edges
  // only, and counts no row twice, the other covers it with one strip only.
  lemma AlikeCover(edges: Edges, out: seq<Strip>, eager: seq<Strip>, x: real, y: real)
    requires ValidEdges(edges)
    requires forall l: nat, r: nat, row: int :: Count(out, l, r, row) == Count(eager, l, r, row) <= 1
    requires OnePair(edges, eager, x, y)
    ensures Covered(edges, out, x, y) <==> Covered(edges, eager, x, y)
    ensures forall i, j :: 0 <= i < j < |out| ==>
            !(CoversPoint(edges, out[i], x, y) && CoversPoint(edges, out[j], x, y))
  {
    hide CoversPoint, Covers, Count;
    forall i | 0 <= i < |out| && CoversPoint(edges, out[i], x, y)
      ensures exists t :: t in eager && CoversPoint(edges, t, x, y) && t.left == out[i].left && t.right == out[i].right
    {
      var t := Twin(edges, out, eager, i, x, y);
    }
    forall i | 0 <= i < |eager| && CoversPoint(edges, eager[i], x, y)
      ensures Covered(edges, out, x, y)
    {
      var t := Twin(edges, eager, out, i, x, y);
      var j :| 0 <= j < |out| && out[j] == t;
    }
    if Covered(edges, out, x, y) {
      var i :| 0 <= i < |out| && CoversPoint(edges, out[i], x, y);
      var t :| t in eager && CoversPoint(edges, t, x, y) && t.left == out[i].left && t.right == out[i].right;
      var j :| 0 <= j < |eager| && eager[j] == t;
    }
    forall i, j | 0 <= i < j < |out| && CoversPoint(edges, out[i], x, y) && CoversPoint(edges, out[j], x, y)
      ensures false
    {
      TwiceIsTwo(edges, out, i, j, x, y);
    }
  }

  lemma Twin(edges: Edges, a: seq<Strip>, b: seq<Strip>, i: nat, x: real, y: real) returns (t: Strip)
    requires ValidEdges(edges) && i < |a| && CoversPoint(edges, a[i], x, y)
    requires forall l: nat, r: nat, row: int :: Count(a, l, r, row) == Count(b, l, r, row)
    ensures t in b && CoversPoint(edges, t, x, y) && t.left == a[i].left && t.right == a[i].right
  {
    var s := a[i];
    CoversItsRow(edges, s, s, x, y);
    CountAtLeast(a, i, s.left, s.right, y.Floor);
    CountWitness(b, s.left, s.right, y.Floor);
    t :| t in b && Covers(t, s.left, s.right, y.Floor);
    CoversItsRow(edges, s, t, x, y);
  }

  lemma TwiceIsTwo(edges: Edges, out: seq<Strip>, i: nat, j: nat, x: real, y: real)
    requires ValidEdges(edges) && i < j < |out|
    requires CoversPoint(edges, out[i], x, y) && CoversPoint(edges, out[j], x, y)
    requires out[i].left == out[j].left && out[i].right == out[j].right
    ensures Count(out, out[i].left, out[i].right, y.Floor) >= 2
  {
    CoversItsRow(edges, out[i], out[i], x, y);
    CoversItsRow(edges, out[j], out[j], x, y);
    CountAtLeast(out, i, out[i].left, out[i].right, y.Floor);
  }

  // ---- The main theorem ----

  // For edges in range that cross only at integer points, and any completed run of the
  // sweep: on every quiet row, off the edges, the emitted trapezoids cover exactly the
  // points a brute-force scanline fills, each by one trapezoid.
  lemma SweepFillsScanline(edges: Edges, rule: FillRule, run: seq<Full>, x: real, y: real)
    requires ValidEdges(edges) && AllInRange(edges) && IntegerCrossings(edges)
    requires RunFull(edges, rule, run) && Done(run[|run| - 1].core)
    requires QuietRow(edges, y) && OffEdges(edges, x, y)
    ensures var out := run[|run| - 1].traps.out;
      && (Covered(edges, out, x, y) <==> Filled(edges, rule, x, y))
      && (forall i, j :: 0 <= i < j < |out| ==> !(CoversPoint(edges, out[i], x, y) && CoversPoint(edges, out[j], x, y)))
  {
    var n := |run| - 1;
    var f := run[n];
    forall i | 0 < i < |run| ensures run[i - 1].core.y <= run[i].core.y {
      RowsRise(edges, rule, run, i);
    }
    LazyRefinesEager(edges, rule, run);
    var p := ReachableOrder(edges, rule, run, n);
    hide Filled, Covered, CoversPoint, OnePair, QuietRow, OffEdges, IntegerCrossings, OrderInv, StripInRange;
    if 0.0 <= y < f.core.y as real {
      EagerFills(edges, rule, run, n, x, y);
      AlikeCover(edges, f.traps.out, f.eager, x, y);
    } else {
      OutsideTheRows(edges, rule, f, x, y);
    }
  }

  lemma OutsideTheRows(edges: Edges, rule: FillRule, f: Full, x: real, y: real)
    requires ValidEdges(edges) && AllInRange(edges) && StoppedAbove(edges, f.core) && f.core.pending == []
    requires y < 0.0 || y >= f.core.y as real
    requires forall i :: 0 <= i < |f.traps.out| ==> StripInRange(edges, f.traps.out[i])
    ensures !Filled(edges, rule, x, y)
    ensures forall i :: 0 <= i < |f.traps.out| ==> !CoversPoint(edges, f.traps.out[i], x, y)
    ensures !Covered(edges, f.traps.out, x, y)
  {
    hide XAt;
    assert forall e :: 0 <= e < |edges| ==> 0 <= edges[e].top.y && edges[e].bottom.y <= f.core.y;
  }

  // ---- Closed polygons ----

  // All edges spanning the row together leave a point to the right of them outside,
  // as those of closed contours do.
  ghost predicate ClosedRow(edges: Edges, rule: FillRule, y: real)
    requires ValidEdges(edges)
  {
    forall x :: (forall e :: 0 <= e < |edges| && Spans(edges[e], y) ==> XAt(edges[e], y) < x) ==>
      !Inside(rule, Crossed(edges, rule, x, y, |edges|))
  }

  lemma ClosedIsFilledByRule(edges: Edges, rule: FillRule, x: real, y: real)
    requires ValidEdges(edges) && ClosedRow(edges, rule, y) && OffEdges(edges, x, y)
    ensures Filled(edges, rule, x, y) <==> Inside(rule, Crossed(edges, rule, x, y, |edges|))
  {
    hide XAt, Spans, Inside, Crossed;
  }
}
