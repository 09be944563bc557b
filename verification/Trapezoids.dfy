// Deferred trapezoids: strips between neighbouring edges are kept open while the
// pair stays together, and are emitted when it parts
// (cairo-bentley-ottmann.c, lines 1152-1250, 1303-1341 and 1378-1486).
module Trapezoids {
  import opened Arith
  import opened Geometry
  import opened Events
  import opened EventQueue
  import opened Sweep

  datatype FillRule = Winding | EvenOdd

  // A deferred trapezoid of an edge.
  datatype Deferred = Deferred(right: nat, top: int)

  // An emitted trapezoid: rows top to bottom between two edges.
  datatype Strip = Strip(left: nat, right: nat, top: int, bottom: int)

  datatype Traps = Traps(deferred: map<nat, Deferred>, out: seq<Strip>)

  predicate SameEnds(a: Edge, b: Edge) {
    a.top == b.top && a.bottom == b.bottom
  }

  predicate KnownTraps(edges: Edges, t: Traps) {
    forall l :: l in t.deferred ==> l < |edges| && t.deferred[l].right < |edges|
  }

  // ---- _cairo_bo_edge_end_trap ----

  function EndTrap(edges: Edges, t: Traps, left: nat, bot: int): (r: Traps)
    requires KnownTraps(edges, t)
    ensures KnownTraps(edges, r)
  {
    if left !in t.deferred then t
    else
      var d := t.deferred[left];
      var b := if edges[d.right].bottom.y < bot then edges[d.right].bottom.y else bot;
      Traps(t.deferred - {left},
            if d.top < b && !SameEnds(edges[left], edges[d.right])
            then t.out + [Strip(left, d.right, d.top, b)] else t.out)
  }

  // ---- _cairo_bo_edge_start_or_continue_trap ----

  function StartOrContinue(edges: Edges, t: Traps, e: nat, next: Neighbour, top: int): (r: Traps)
    requires KnownTraps(edges, t) && e < |edges| && KnownNeighbour(edges, next)
    ensures KnownTraps(edges, r)
  {
    if e in t.deferred && next == Present(t.deferred[e].right) then t
    else
      var u := EndTrap(edges, t, e, top);
      if next.Present? then u.(deferred := u.deferred[e := Deferred(next.id, top)]) else u
  }

  // ---- _active_edges_to_traps ----

  function Turn(rule: FillRule, e: Edge, inOut: int): int {
    if rule.Winding? then (if e.reversed then inOut + 1 else inOut - 1) else inOut + 1
  }

  predicate Inside(rule: FillRule, inOut: int) {
    if rule.Winding? then inOut != 0 else inOut % 2 != 0
  }

  predicate KnownLine(edges: Edges, line: seq<nat>) {
    forall i :: 0 <= i < |line| ==> line[i] < |edges|
  }

  // One edge's turn in the pass.
  function Visit(edges: Edges, rule: FillRule, line: seq<nat>, i: nat, io: int, top: int, t: Traps): (u: Traps)
    requires KnownLine(edges, line) && KnownTraps(edges, t) && i < |line|
    ensures KnownTraps(edges, u)
  {
    if Inside(rule, io) then StartOrContinue(edges, t, line[i], Member(line, i + 1), top)
    else EndTrap(edges, t, line[i], top)
  }

  // The pass over the active list from position i on, with the count of the edges before it.
  function Pass(edges: Edges, rule: FillRule, line: seq<nat>, i: nat, inOut: int, top: int, t: Traps): (r: Traps)
    requires KnownLine(edges, line) && KnownTraps(edges, t) && i <= |line|
    ensures KnownTraps(edges, r)
    decreases |line| - i
  {
    if i == |line| then t
    else
      var io := Turn(rule, edges[line[i]], inOut);
      Pass(edges, rule, line, i + 1, io, top, Visit(edges, rule, line, i, io, top, t))
  }

  // What a pass would emit at once, knowing the row the next pass happens at.
  function Eager(edges: Edges, rule: FillRule, line: seq<nat>, i: nat, inOut: int, top: int, bottom: int): seq<Strip>
    requires KnownLine(edges, line) && i <= |line|
    decreases |line| - i
  {
    if i == |line| then []
    else
      var io := Turn(rule, edges[line[i]], inOut);
      (if Inside(rule, io) && i + 1 < |line| && !SameEnds(edges[line[i]], edges[line[i + 1]])
       then [Strip(line[i], line[i + 1], top, bottom)] else [])
      + Eager(edges, rule, line, i + 1, io, top, bottom)
  }

  // ---- The main loop with its trapezoids ----

  // `eager` records, beside the source's own state, what an eager sweep has emitted.
  datatype Full = Full(core: State, traps: Traps, eager: seq<Strip>)

  function InitFull(edges: Edges): Full {
    Full(Init(edges), Traps(map[], []), [])
  }

  predicate WellFormedFull(edges: Edges, f: Full) {
    WellFormed(edges, f.core) && KnownTraps(edges, f.traps)
  }

  function NextRow(edges: Edges, s: State): int
    requires WellFormed(edges, s) && !NextEvent(edges, s).Nothing?
  {
    At(edges, NextEvent(edges, s).ev).y
  }

  // The pass made when the next event lies on another row.
  function PassBefore(edges: Edges, rule: FillRule, f: Full): (r: Full)
    requires WellFormedFull(edges, f) && !NextEvent(edges, f.core).Nothing?
    ensures WellFormedFull(edges, r)
  {
    var y := NextRow(edges, f.core);
    if y == f.core.y then f
    else f.(traps := Pass(edges, rule, f.core.line, 0, 0, f.core.y, f.traps),
            eager := f.eager + Eager(edges, rule, f.core.line, 0, 0, f.core.y, y))
  }

  function ApplyFull(edges: Edges, rule: FillRule, f: Full, k: nat): (r: Full)
    requires WellFormedFull(edges, f) && Legal(edges, f.core, k)
    ensures WellFormedFull(edges, r)
  {
    var g := PassBefore(edges, rule, f);
    var ev := NextEvent(edges, f.core).ev;
    Full(Apply(edges, f.core, k),
         if ev.Stop? then EndTrap(edges, g.traps, ev.edge, edges[ev.edge].bottom.y) else g.traps,
         g.eager)
  }

  ghost predicate StepFull(edges: Edges, rule: FillRule, f: Full, r: Full) {
    WellFormedFull(edges, f) && exists k: nat :: Legal(edges, f.core, k) && r == ApplyFull(edges, rule, f, k)
  }

  ghost predicate RunFull(edges: Edges, rule: FillRule, run: seq<Full>) {
    && run != [] && run[0] == InitFull(edges)
    && forall i :: 0 < i < |run| ==> StepFull(edges, rule, run[i - 1], run[i])
  }

  // ---- Deferred trapezoids belong to edges of the line ----

  predicate Held(f: Full) {
    forall l :: l in f.traps.deferred ==> l in f.core.line
  }

  lemma {:induction false} PassHeld(edges: Edges, rule: FillRule, line: seq<nat>, i: nat, inOut: int, top: int,
                                    t: Traps)
    requires KnownLine(edges, line) && KnownTraps(edges, t) && i <= |line|
    requires forall l :: l in t.deferred ==> l in line
    ensures forall l :: l in Pass(edges, rule, line, i, inOut, top, t).deferred ==> l in line
    decreases |line| - i
  {
    if i < |line| {
      var io := Turn(rule, edges[line[i]], inOut);
      PassHeld(edges, rule, line, i + 1, io, top, Visit(edges, rule, line, i, io, top, t));
    }
  }

  lemma StepHeld(edges: Edges, rule: FillRule, f: Full, k: nat)
    requires WellFormedFull(edges, f) && Inv(edges, f.core) && Legal(edges, f.core, k) && Held(f)
    ensures Held(ApplyFull(edges, rule, f, k))
  {
    hide CompareEvents, CompareEdges, Sorted;
    PassHeld(edges, rule, f.core.line, 0, 0, f.core.y, f.traps);
    match NextEvent(edges, f.core).ev
    case Start(e) => InsertAtMembers(f.core.line, k, e);
    case Stop(e) => DeleteAtMembers(f.core.line, k);
    case Crossing(e1, e2, p) => if Adjacent(f.core.line, k, e2) { SwapAtMembers(f.core.line, k); }
  }

  // ---- Rows covered ----

  predicate Covers(s: Strip, l: nat, r: nat, row: int) {
    s.left == l && s.right == r && s.top <= row < s.bottom
  }

  // How many strips of the list lie between l and r on a row.
  function Count(strips: seq<Strip>, l: nat, r: nat, row: int): nat {
    if strips == [] then 0
    else Count(strips[..|strips| - 1], l, r, row) + if Covers(strips[|strips| - 1], l, r, row) then 1 else 0
  }

  lemma {:induction false} CountAppend(a: seq<Strip>, b: seq<Strip>, l: nat, r: nat, row: int)
    ensures Count(a + b, l, r, row) == Count(a, l, r, row) + Count(b, l, r, row)
    decreases |b|
  {
    if b == [] {
      assert a + b == a;
    } else {
      var c := b[..|b| - 1];
      CountAppend(a, c, l, r, row);
      assert (a + b)[..|a + b| - 1] == a + c;
    }
  }

  lemma CountOne(s: Strip, l: nat, r: nat, row: int)
    ensures Count([s], l, r, row) == if Covers(s, l, r, row) then 1 else 0
  {
    assert [s][..0] == [];
  }

  // What the deferred trapezoid of l stands for when rows up to y are accounted for.
  function Owed(edges: Edges, t: Traps, y: int, l: nat, r: nat, row: int): nat
    requires KnownTraps(edges, t)
  {
    if l in t.deferred && t.deferred[l].right == r && !SameEnds(edges[l], edges[r])
       && t.deferred[l].top <= row < Min(y, edges[r].bottom.y) then 1 else 0
  }

  function Total(edges: Edges, t: Traps, y: int, l: nat, r: nat, row: int): nat
    requires KnownTraps(edges, t)
  {
    Count(t.out, l, r, row) + Owed(edges, t, y, l, r, row)
  }

  // Ending a trapezoid at row y turns what is owed up to y into an emitted strip.
  lemma EndTrapTotal(edges: Edges, t: Traps, e: nat, y: int, l: nat, r: nat, row: int)
    requires KnownTraps(edges, t)
    ensures Total(edges, EndTrap(edges, t, e, y), y, l, r, row) == Total(edges, t, y, l, r, row)
  {
    if e in t.deferred {
      var d := t.deferred[e];
      var s := Strip(e, d.right, d.top, Min(y, edges[d.right].bottom.y));
      CountAppend(t.out, [s], l, r, row);
      CountOne(s, l, r, row);
    }
  }

  lemma StartOrContinueTotal(edges: Edges, t: Traps, e: nat, next: Neighbour, y: int, l: nat, r: nat, row: int)
    requires KnownTraps(edges, t) && e < |edges| && KnownNeighbour(edges, next)
    ensures Total(edges, StartOrContinue(edges, t, e, next, y), y, l, r, row) == Total(edges, t, y, l, r, row)
  {
    EndTrapTotal(edges, t, e, y, l, r, row);
  }

  lemma {:induction false} PassTotal(edges: Edges, rule: FillRule, line: seq<nat>, i: nat, inOut: int, y: int, t: Traps,
                                     l: nat, r: nat, row: int)
    requires KnownLine(edges, line) && KnownTraps(edges, t) && i <= |line|
    ensures Total(edges, Pass(edges, rule, line, i, inOut, y, t), y, l, r, row) == Total(edges, t, y, l, r, row)
    decreases |line| - i
  {
    hide Total, EndTrap, StartOrContinue;
    if i < |line| {
      var io := Turn(rule, edges[line[i]], inOut);
      StartOrContinueTotal(edges, t, line[i], Member(line, i + 1), y, l, r, row);
      EndTrapTotal(edges, t, line[i], y, l, r, row);
      PassTotal(edges, rule, line, i + 1, io, y, Visit(edges, rule, line, i, io, y, t), l, r, row);
    }
  }

  // ---- What a pass leaves deferred ----

  // in_out after the first i edges of the line.
  function InOut(edges: Edges, rule: FillRule, line: seq<nat>, i: nat): int
    requires KnownLine(edges, line) && i <= |line|
  {
    if i == 0 then 0 else Turn(rule, edges[line[i - 1]], InOut(edges, rule, line, i - 1))
  }

  // Position j begins a strip: it is inside, and an edge follows.
  predicate Opens(edges: Edges, rule: FillRule, line: seq<nat>, j: nat)
    requires KnownLine(edges, line) && j < |line|
  {
    Inside(rule, InOut(edges, rule, line, j + 1)) && j + 1 < |line|
  }

  // The two traps agree on the deferred trapezoid of l.
  predicate SameFor(t: Traps, u: Traps, l: nat) {
    if l in t.deferred then l in u.deferred && u.deferred[l] == t.deferred[l] else l !in u.deferred
  }

  // The deferred trapezoid of l is new since row top, or was there before.
  predicate FreshOrKept(t: Traps, u: Traps, top: int, l: nat) {
    l in u.deferred ==> u.deferred[l].top == top || (l in t.deferred && u.deferred[l] == t.deferred[l])
  }

  lemma VisitShape(edges: Edges, rule: FillRule, line: seq<nat>, i: nat, io: int, top: int, t: Traps)
    requires KnownLine(edges, line) && KnownTraps(edges, t) && i < |line|
    ensures var u, e := Visit(edges, rule, line, i, io, top, t), line[i];
      && (e in u.deferred <==> Inside(rule, io) && i + 1 < |line|)
      && (e in u.deferred ==> u.deferred[e].right == line[i + 1])
      && FreshOrKept(t, u, top, e)
      && forall l :: l != e ==> SameFor(t, u, l)
  {
  }

  lemma {:induction false} PassElsewhere(edges: Edges, rule: FillRule, line: seq<nat>, i: nat, io: int, top: int,
                                         t: Traps, l: nat)
    requires KnownLine(edges, line) && KnownTraps(edges, t) && i <= |line| && l !in line[i..]
    ensures SameFor(t, Pass(edges, rule, line, i, io, top, t), l)
    decreases |line| - i
  {
    if i < |line| {
      assert line[i..] == [line[i]] + line[i + 1..];
      var io' := Turn(rule, edges[line[i]], io);
      VisitShape(edges, rule, line, i, io', top, t);
      PassElsewhere(edges, rule, line, i + 1, io', top, Visit(edges, rule, line, i, io', top, t), l);
    }
  }

  lemma {:induction false} PassKeepsOrRenews(edges: Edges, rule: FillRule, line: seq<nat>, i: nat, io: int, top: int,
                                             t: Traps, l: nat)
    requires KnownLine(edges, line) && KnownTraps(edges, t) && i <= |line|
    ensures FreshOrKept(t, Pass(edges, rule, line, i, io, top, t), top, l)
    decreases |line| - i
  {
    if i < |line| {
      var io' := Turn(rule, edges[line[i]], io);
      VisitShape(edges, rule, line, i, io', top, t);
      PassKeepsOrRenews(edges, rule, line, i + 1, io', top, Visit(edges, rule, line, i, io', top, t), l);
      assert SameFor(t, Visit(edges, rule, line, i, io', top, t), l) || l == line[i];
    }
  }

  // The edge at position p has a deferred trapezoid exactly when it opens a strip,
  // and then its right edge is the next one.
  predicate MatchesAt(edges: Edges, rule: FillRule, line: seq<nat>, t: Traps, p: nat)
    requires KnownLine(edges, line) && p < |line|
  {
    && (line[p] in t.deferred <==> Opens(edges, rule, line, p))
    && (line[p] in t.deferred ==> p + 1 < |line| && t.deferred[line[p]].right == line[p + 1])
  }

  lemma {:induction false} PassAt(edges: Edges, rule: FillRule, line: seq<nat>, i: nat, p: nat, top: int, t: Traps)
    requires KnownLine(edges, line) && KnownTraps(edges, t) && i <= p < |line| && Distinct(line)
    ensures MatchesAt(edges, rule, line, Pass(edges, rule, line, i, InOut(edges, rule, line, i), top, t), p)
    decreases p - i
  {
    hide Inside;
    var io := InOut(edges, rule, line, i + 1);
    var u := Visit(edges, rule, line, i, io, top, t);
    if i < p {
      PassAt(edges, rule, line, i + 1, p, top, u);
    } else {
      VisitShape(edges, rule, line, i, io, top, t);
      PassElsewhere(edges, rule, line, i + 1, io, top, u, line[i]);
    }
  }

  // ---- What an eager pass emits ----

  lemma {:induction false} EagerElsewhere(edges: Edges, rule: FillRule, line: seq<nat>, i: nat, top: int, bottom: int,
                                          l: nat, r: nat, row: int)
    requires KnownLine(edges, line) && i <= |line| && l !in line[i..]
    ensures Count(Eager(edges, rule, line, i, InOut(edges, rule, line, i), top, bottom), l, r, row) == 0
    decreases |line| - i
  {
    if i < |line| {
      assert line[i..] == [line[i]] + line[i + 1..];
      EagerElsewhere(edges, rule, line, i + 1, top, bottom, l, r, row);
      EagerSplit(edges, rule, line, i, top, bottom, l, r, row);
    }
  }

  lemma EagerSplit(edges: Edges, rule: FillRule, line: seq<nat>, i: nat, top: int, bottom: int, l: nat, r: nat,
                   row: int)
    requires KnownLine(edges, line) && i < |line|
    ensures Count(Eager(edges, rule, line, i, InOut(edges, rule, line, i), top, bottom), l, r, row)
         == (if Opens(edges, rule, line, i) && !SameEnds(edges[line[i]], edges[line[i + 1]])
                && Covers(Strip(line[i], line[i + 1], top, bottom), l, r, row) then 1 else 0)
          + Count(Eager(edges, rule, line, i + 1, InOut(edges, rule, line, i + 1), top, bottom), l, r, row)
  {
    var rest := Eager(edges, rule, line, i + 1, InOut(edges, rule, line, i + 1), top, bottom);
    if Opens(edges, rule, line, i) && !SameEnds(edges[line[i]], edges[line[i + 1]]) {
      var s := Strip(line[i], line[i + 1], top, bottom);
      CountAppend([s], rest, l, r, row);
      CountOne(s, l, r, row);
    } else {
      CountAppend([], rest, l, r, row);
    }
  }

  lemma {:induction false} EagerAt(edges: Edges, rule: FillRule, line: seq<nat>, i: nat, p: nat, top: int, bottom: int,
                                   r: nat, row: int)
    requires KnownLine(edges, line) && i <= p < |line| && Distinct(line)
    ensures Count(Eager(edges, rule, line, i, InOut(edges, rule, line, i), top, bottom), line[p], r, row)
         == if Opens(edges, rule, line, p) && !SameEnds(edges[line[p]], edges[line[p + 1]])
               && Covers(Strip(line[p], line[p + 1], top, bottom), line[p], r, row) then 1 else 0
    decreases p - i
  {
    hide Eager, Opens, Count, InOut, SameEnds;
    EagerSplit(edges, rule, line, i, top, bottom, line[p], r, row);
    if i < p {
      EagerAt(edges, rule, line, i + 1, p, top, bottom, r, row);
    } else {
      EagerElsewhere(edges, rule, line, i + 1, top, bottom, line[p], r, row);
    }
  }

  // Right after a pass, moving on from row y to row z owes exactly the strips an
  // eager pass emits for those rows.
  lemma AdvanceOwes(edges: Edges, rule: FillRule, line: seq<nat>, t: Traps, y: int, z: int, l: nat, r: nat, row: int)
    requires KnownLine(edges, line) && KnownTraps(edges, t) && Distinct(line) && y <= z
    requires forall j :: 0 <= j < |line| ==> edges[line[j]].bottom.y >= z
    requires forall m :: m in t.deferred ==> m in line && t.deferred[m].top <= y
    requires forall j :: 0 <= j < |line| ==> MatchesAt(edges, rule, line, t, j)
    ensures Owed(edges, t, z, l, r, row)
         == Owed(edges, t, y, l, r, row) + Count(Eager(edges, rule, line, 0, 0, y, z), l, r, row)
  {
    hide Opens, Eager;
    if l in line {
      var p :| 0 <= p < |line| && line[p] == l;
      EagerAt(edges, rule, line, 0, p, y, z, r, row);
      assert MatchesAt(edges, rule, line, t, p);
      assert p + 1 < |line| ==> edges[line[p + 1]].bottom.y >= z;
    } else {
      assert line[0..] == line;
      EagerElsewhere(edges, rule, line, 0, y, z, l, r, row);
    }
  }

  // ---- The invariant of runs whose rows do not decrease ----

  // No edge of the line starts below the current row; nothing pending lies above it.
  predicate RowsInOrder(edges: Edges, s: State)
    requires WellFormed(edges, s)
  {
    && (forall e :: e in s.line ==> e < |edges| && edges[e].top.y <= s.y)
    && (forall x :: x in s.pending ==> Refers(edges, x) && At(edges, x).y >= s.y)
  }

  // A deferred trapezoid begins at or below both tops and at or above the current row.
  predicate DeferredInRange(edges: Edges, f: Full)
    requires WellFormedFull(edges, f)
  {
    forall l :: l in f.traps.deferred ==>
      var d := f.traps.deferred[l];
      edges[l].top.y <= d.top <= f.core.y && edges[d.right].top.y <= d.top
  }

  // A strip has positive height, stays within the rows of both its edges, and these do not
  // have the same ends.
  predicate StripInRange(edges: Edges, s: Strip) {
    && s.left < |edges| && s.right < |edges| && s.top < s.bottom
    && (edges[s.left].top != edges[s.right].top || edges[s.left].bottom != edges[s.right].bottom)
    && edges[s.left].top.y <= s.top && s.bottom <= edges[s.left].bottom.y
    && edges[s.right].top.y <= s.top && s.bottom <= edges[s.right].bottom.y
  }

  ghost predicate Accounted(edges: Edges, f: Full)
    requires WellFormedFull(edges, f)
  {
    forall l: nat, r: nat, row: int ::
      Total(edges, f.traps, f.core.y, l, r, row) == Count(f.eager, l, r, row) <= 1
  }

  ghost predicate TrapInv(edges: Edges, f: Full) {
    && WellFormedFull(edges, f) && Inv(edges, f.core) && Held(f)
    && RowsInOrder(edges, f.core)
    && DeferredInRange(edges, f)
    && OutInRange(edges, f.traps.out)
    && (forall i :: 0 <= i < |f.eager| ==> f.eager[i].bottom <= f.core.y)
    && Accounted(edges, f)
  }

  predicate RowsFromZero(edges: Edges) {
    forall e :: 0 <= e < |edges| ==> edges[e].top.y >= 0
  }

  lemma InitTrapInv(edges: Edges)
    requires ValidEdges(edges) && RowsFromZero(edges)
    ensures TrapInv(edges, InitFull(edges))
  {
    hide CompareEvents;
    InitInv(edges);
    assert forall x :: x in Init(edges).pending ==> Refers(edges, x) && At(edges, x).y >= 0;
  }

  lemma StepRowsInOrder(edges: Edges, s: State, k: nat)
    requires Inv(edges, s) && RowsInOrder(edges, s) && Legal(edges, s, k) && NextRow(edges, s) >= s.y
    ensures RowsInOrder(edges, Apply(edges, s, k))
  {
    hide CompareEvents, CompareEdges, Sorted;
    var ev, r := NextEvent(edges, s).ev, Apply(edges, s, k);
    TakenWaits(edges, s);
    forall x | x in r.pending ensures Refers(edges, x) && At(edges, x).y >= r.y {
      OrderIsByPoint(edges, ev, x);
    }
    match ev
    case Start(e) => InsertAtMembers(s.line, k, e);
    case Stop(e) => DeleteAtMembers(s.line, k);
    case Crossing(e1, e2, p) => if Adjacent(s.line, k, e2) { SwapAtMembers(s.line, k); }
  }

  // Every edge of the line reaches down to the next event's row.
  lemma LineReaches(edges: Edges, s: State)
    requires Inv(edges, s) && !NextEvent(edges, s).Nothing?
    ensures forall e :: e in s.line ==> e < |edges| && edges[e].bottom.y >= NextRow(edges, s)
  {
    hide CompareEvents, Sorted;
    NextIsMinimum(edges, s.pending, s.crossings);
    forall e | e in s.line ensures e < |edges| && edges[e].bottom.y >= NextRow(edges, s) {
      assert Stop(e) in s.pending;
      OrderIsByPoint(edges, NextEvent(edges, s).ev, Stop(e));
    }
  }

  // ---- Emitted strips stay in range ----

  predicate OutInRange(edges: Edges, out: seq<Strip>) {
    forall i :: 0 <= i < |out| ==> StripInRange(edges, out[i])
  }

  // Ready for a pass at row y: deferred trapezoids begin in range, on edges reaching y.
  predicate ReadyAt(edges: Edges, line: seq<nat>, t: Traps, y: int)
    requires KnownTraps(edges, t)
  {
    && (forall l :: l in line ==> l < |edges| && edges[l].top.y <= y <= edges[l].bottom.y)
    && (forall l :: l in t.deferred ==> l in line)
    && (forall l :: l in t.deferred ==>
          edges[l].top.y <= t.deferred[l].top <= y && edges[t.deferred[l].right].top.y <= t.deferred[l].top)
  }

  lemma EndTrapInRange(edges: Edges, t: Traps, e: nat, y: int)
    requires KnownTraps(edges, t) && OutInRange(edges, t.out)
    requires e in t.deferred ==>
      edges[e].top.y <= t.deferred[e].top && edges[t.deferred[e].right].top.y <= t.deferred[e].top
      && y <= edges[e].bottom.y
    ensures OutInRange(edges, EndTrap(edges, t, e, y).out)
  {
  }

  lemma VisitInRange(edges: Edges, rule: FillRule, line: seq<nat>, i: nat, io: int, y: int, t: Traps)
    requires KnownLine(edges, line) && KnownTraps(edges, t) && i < |line|
    requires OutInRange(edges, t.out) && ReadyAt(edges, line, t, y)
    ensures var u := Visit(edges, rule, line, i, io, y, t); OutInRange(edges, u.out) && ReadyAt(edges, line, u, y)
  {
    hide OutInRange;
    EndTrapInRange(edges, t, line[i], y);
    assert line[i] in line && (i + 1 < |line| ==> line[i + 1] in line);
  }

  lemma {:induction false} PassInRange(edges: Edges, rule: FillRule, line: seq<nat>, i: nat, io: int, y: int, t: Traps)
    requires KnownLine(edges, line) && KnownTraps(edges, t) && i <= |line|
    requires OutInRange(edges, t.out) && ReadyAt(edges, line, t, y)
    ensures var u := Pass(edges, rule, line, i, io, y, t); OutInRange(edges, u.out) && ReadyAt(edges, line, u, y)
    decreases |line| - i
  {
    hide OutInRange, ReadyAt, Visit;
    if i < |line| {
      var io' := Turn(rule, edges[line[i]], io);
      VisitInRange(edges, rule, line, i, io', y, t);
      PassInRange(edges, rule, line, i + 1, io', y, Visit(edges, rule, line, i, io', y, t));
    }
  }

  // ---- One iteration ----

  lemma {:induction false} EagerBottoms(edges: Edges, rule: FillRule, line: seq<nat>, i: nat, io: int, y: int, z: int)
    requires KnownLine(edges, line) && i <= |line|
    ensures forall j :: 0 <= j < |Eager(edges, rule, line, i, io, y, z)| ==>
              Eager(edges, rule, line, i, io, y, z)[j].top == y && Eager(edges, rule, line, i, io, y, z)[j].bottom == z
    decreases |line| - i
  {
    if i < |line| {
      EagerBottoms(edges, rule, line, i + 1, Turn(rule, edges[line[i]], io), y, z);
    }
  }

  lemma {:induction false} CountAbove(strips: seq<Strip>, y: int, l: nat, r: nat, row: int)
    requires forall i :: 0 <= i < |strips| ==> strips[i].bottom <= y
    requires row >= y
    ensures Count(strips, l, r, row) == 0
  {
    if strips != [] {
      CountAbove(strips[..|strips| - 1], y, l, r, row);
    }
  }

  lemma {:induction false} CountBelow(strips: seq<Strip>, y: int, l: nat, r: nat, row: int)
    requires forall i :: 0 <= i < |strips| ==> strips[i].top >= y
    requires row < y
    ensures Count(strips, l, r, row) == 0
  {
    if strips != [] {
      CountBelow(strips[..|strips| - 1], y, l, r, row);
    }
  }

  lemma EagerCountsOnce(edges: Edges, rule: FillRule, line: seq<nat>, y: int, z: int, l: nat, r: nat, row: int)
    requires KnownLine(edges, line) && Distinct(line)
    ensures Count(Eager(edges, rule, line, 0, 0, y, z), l, r, row) <= 1
  {
    hide Eager, Count, Opens;
    if l in line {
      var p :| 0 <= p < |line| && line[p] == l;
      EagerAt(edges, rule, line, 0, p, y, z, r, row);
    } else {
      assert line[0..] == line;
      EagerElsewhere(edges, rule, line, 0, y, z, l, r, row);
    }
  }

  // The pass and the move to the next row keep the account balanced.
  lemma PassAccounts(edges: Edges, rule: FillRule, f: Full, l: nat, r: nat, row: int)
    requires TrapInv(edges, f) && !NextEvent(edges, f.core).Nothing? && NextRow(edges, f.core) >= f.core.y
    ensures var g, z := PassBefore(edges, rule, f), NextRow(edges, f.core);
      Total(edges, g.traps, z, l, r, row) == Count(g.eager, l, r, row) <= 1
  {
    hide CompareEvents, Sorted, Inv, Pass, Eager, Owed, Count;
    var g, y, z, line := PassBefore(edges, rule, f), f.core.y, NextRow(edges, f.core), f.core.line;
    assert Total(edges, f.traps, y, l, r, row) == Count(f.eager, l, r, row) <= 1;
    if z != y {
      PassReady(edges, rule, f);
      AdvanceOwes(edges, rule, line, g.traps, y, z, l, r, row);
      PassTotal(edges, rule, line, 0, 0, y, f.traps, l, r, row);
      CountAppend(f.eager, Eager(edges, rule, line, 0, 0, y, z), l, r, row);
      EagerBottoms(edges, rule, line, 0, 0, y, z);
      EagerCountsOnce(edges, rule, line, y, z, l, r, row);
      if row >= y { CountAbove(f.eager, y, l, r, row); }
      else { CountBelow(Eager(edges, rule, line, 0, 0, y, z), y, l, r, row); }
    }
  }

  // The line as the pass finds it.
  lemma LineReady(edges: Edges, f: Full)
    requires TrapInv(edges, f) && !NextEvent(edges, f.core).Nothing? && NextRow(edges, f.core) >= f.core.y
    ensures var line, y := f.core.line, f.core.y;
      && Distinct(line) && KnownLine(edges, line)
      && (forall j :: 0 <= j < |line| ==> edges[line[j]].bottom.y >= NextRow(edges, f.core))
      && OutInRange(edges, f.traps.out) && ReadyAt(edges, line, f.traps, y)
  {
    hide CompareEvents, Sorted, Accounted, StripInRange;
    LineReaches(edges, f.core);
    assert forall j :: 0 <= j < |f.core.line| ==> f.core.line[j] in f.core.line;
  }

  lemma PassReady(edges: Edges, rule: FillRule, f: Full)
    requires TrapInv(edges, f) && !NextEvent(edges, f.core).Nothing? && NextRow(edges, f.core) >= f.core.y
    ensures var line, y, t := f.core.line, f.core.y, Pass(edges, rule, f.core.line, 0, 0, f.core.y, f.traps);
      && Distinct(line) && KnownLine(edges, line)
      && (forall j :: 0 <= j < |line| ==> edges[line[j]].bottom.y >= NextRow(edges, f.core))
      && OutInRange(edges, t.out) && ReadyAt(edges, line, t, y)
      && (forall j :: 0 <= j < |line| ==> MatchesAt(edges, rule, line, t, j))
  {
    hide CompareEvents, Sorted, Pass, Accounted, Inv, RowsInOrder, DeferredInRange, OutInRange, ReadyAt, MatchesAt;
    var line, y := f.core.line, f.core.y;
    LineReady(edges, f);
    PassInRange(edges, rule, line, 0, 0, y, f.traps);
    forall j | 0 <= j < |line|
      ensures MatchesAt(edges, rule, line, Pass(edges, rule, line, 0, 0, y, f.traps), j)
    {
      PassAt(edges, rule, line, 0, j, y, f.traps);
    }
  }

  // Moving on to row z keeps the deferred trapezoids in range.
  lemma ReadyLater(edges: Edges, line: seq<nat>, t: Traps, y: int, z: int)
    requires KnownTraps(edges, t) && ReadyAt(edges, line, t, y) && y <= z
    requires forall e :: e in line ==> e < |edges| && edges[e].bottom.y >= z
    ensures ReadyAt(edges, line, t, z)
  {
  }

  lemma PassKeepsRange(edges: Edges, rule: FillRule, f: Full)
    requires TrapInv(edges, f) && !NextEvent(edges, f.core).Nothing? && NextRow(edges, f.core) >= f.core.y
    ensures var g, z := PassBefore(edges, rule, f), NextRow(edges, f.core);
      && OutInRange(edges, g.traps.out) && ReadyAt(edges, f.core.line, g.traps, z)
      && (forall i :: 0 <= i < |g.eager| ==> g.eager[i].bottom <= z)
  {
    hide CompareEvents, Sorted, Pass, Eager, OutInRange, ReadyAt, MatchesAt, Accounted;
    var z := NextRow(edges, f.core);
    LineReady(edges, f);
    LineReaches(edges, f.core);
    if z != f.core.y {
      PassReady(edges, rule, f);
      EagerBottoms(edges, rule, f.core.line, 0, 0, f.core.y, z);
    }
    ReadyLater(edges, f.core.line, PassBefore(edges, rule, f).traps, f.core.y, z);
  }

  // The pass as a whole, up to the next event's row.
  lemma PassKeeps(edges: Edges, rule: FillRule, f: Full)
    requires TrapInv(edges, f) && !NextEvent(edges, f.core).Nothing? && NextRow(edges, f.core) >= f.core.y
    ensures var g, z := PassBefore(edges, rule, f), NextRow(edges, f.core);
      && OutInRange(edges, g.traps.out) && ReadyAt(edges, f.core.line, g.traps, z)
      && (forall i :: 0 <= i < |g.eager| ==> g.eager[i].bottom <= z)
      && (forall l: nat, r: nat, row: int :: Total(edges, g.traps, z, l, r, row) == Count(g.eager, l, r, row) <= 1)
  {
    PassKeepsRange(edges, rule, f);
    hide TrapInv, PassBefore, NextRow, Count, Total, OutInRange, ReadyAt;
    forall l: nat, r: nat, row: int
      ensures var g, z := PassBefore(edges, rule, f), NextRow(edges, f.core);
        Total(edges, g.traps, z, l, r, row) == Count(g.eager, l, r, row) <= 1
    {
      PassAccounts(edges, rule, f, l, r, row);
    }
  }

  // A stopping edge ends its trapezoid at its own bottom, which is the current row.
  lemma StopKeeps(edges: Edges, f: Full, t: Traps, e: nat, z: int)
    requires WellFormedFull(edges, f) && KnownTraps(edges, t) && e < |edges| && edges[e].bottom.y == z
    requires OutInRange(edges, t.out) && ReadyAt(edges, f.core.line, t, z)
    ensures OutInRange(edges, EndTrap(edges, t, e, z).out)
    ensures forall l: nat, r: nat, row: int ::
              Total(edges, EndTrap(edges, t, e, z), z, l, r, row) == Total(edges, t, z, l, r, row)
  {
    EndTrapInRange(edges, t, e, z);
    forall l: nat, r: nat, row: int
      ensures Total(edges, EndTrap(edges, t, e, z), z, l, r, row) == Total(edges, t, z, l, r, row)
    {
      EndTrapTotal(edges, t, e, z, l, r, row);
    }
  }

  lemma StepKeepsTrapInv(edges: Edges, rule: FillRule, f: Full, k: nat)
    requires TrapInv(edges, f) && Legal(edges, f.core, k) && NextRow(edges, f.core) >= f.core.y
    ensures TrapInv(edges, ApplyFull(edges, rule, f, k))
  {
    var ev, z := NextEvent(edges, f.core).ev, NextRow(edges, f.core);
    var g, r := PassBefore(edges, rule, f), ApplyFull(edges, rule, f, k);
    StepKeepsInv(edges, f.core, k);
    StepHeld(edges, rule, f, k);
    StepRowsInOrder(edges, f.core, k);
    PassKeeps(edges, rule, f);
    if ev.Stop? {
      StopKeeps(edges, f, g.traps, ev.edge, z);
    }
    StepAssembles(edges, rule, f, k);
  }

  lemma StepAssembles(edges: Edges, rule: FillRule, f: Full, k: nat)
    requires WellFormedFull(edges, f) && Legal(edges, f.core, k)
    requires var g, z := PassBefore(edges, rule, f), NextRow(edges, f.core);
      ReadyAt(edges, f.core.line, g.traps, z)
    ensures DeferredInRange(edges, ApplyFull(edges, rule, f, k))
    ensures ApplyFull(edges, rule, f, k).core.y == NextRow(edges, f.core)
  {
    hide CompareEvents, CompareEdges, PassBefore;
  }

  // A run in which no event lies above the row reached before it.
  ghost predicate RowsNeverFall(edges: Edges, run: seq<Full>) {
    forall i :: 0 < i < |run| ==> run[i - 1].core.y <= run[i].core.y
  }

  lemma FullChoice(edges: Edges, rule: FillRule, f: Full, r: Full) returns (k: nat)
    requires StepFull(edges, rule, f, r)
    ensures Legal(edges, f.core, k) && r == ApplyFull(edges, rule, f, k)
  {
    k :| Legal(edges, f.core, k) && r == ApplyFull(edges, rule, f, k);
  }

  lemma {:induction false} ReachableTrapInv(edges: Edges, rule: FillRule, run: seq<Full>, i: nat)
    requires ValidEdges(edges) && RowsFromZero(edges)
    requires RunFull(edges, rule, run) && RowsNeverFall(edges, run) && i < |run|
    ensures TrapInv(edges, run[i])
  {
    hide TrapInv, ApplyFull;
    if i == 0 {
      InitTrapInv(edges);
    } else {
      ReachableTrapInv(edges, rule, run, i - 1);
      assert StepFull(edges, rule, run[i - 1], run[i]);
      var k := FullChoice(edges, rule, run[i - 1], run[i]);
      StepRow(edges, rule, run[i - 1], k);
      StepKeepsTrapInv(edges, rule, run[i - 1], k);
    }
  }

  lemma StepRow(edges: Edges, rule: FillRule, f: Full, k: nat)
    requires WellFormedFull(edges, f) && Legal(edges, f.core, k)
    ensures ApplyFull(edges, rule, f, k).core.y == NextRow(edges, f.core)
  {
    hide CompareEvents, CompareEdges, PassBefore;
  }

  // In any completed run whose rows never fall, the strips emitted lazily for each
  // pair of edges cover exactly the rows an eager sweep emits for that pair, each
  // row once; every strip has positive height, stays within both its edges, and lies
  // between edges that do not have the same ends.
  lemma LazyRefinesEager(edges: Edges, rule: FillRule, run: seq<Full>)
    requires ValidEdges(edges) && RowsFromZero(edges)
    requires RunFull(edges, rule, run) && RowsNeverFall(edges, run)
    requires Done(run[|run| - 1].core)
    ensures var f := run[|run| - 1];
      && f.traps.deferred == map[]
      && (forall l: nat, r: nat, row: int :: Count(f.traps.out, l, r, row) == Count(f.eager, l, r, row) <= 1)
      && (forall i :: 0 <= i < |f.traps.out| ==> StripInRange(edges, f.traps.out[i]))
  {
    hide Inv, StepFull, StripInRange, RowsFromZero, RowsNeverFall, Count;
    var f := run[|run| - 1];
    ReachableTrapInv(edges, rule, run, |run| - 1);
    DoneIsEmpty(edges, f.core);
    assert f.traps.deferred.Keys == {};
    forall l: nat, r: nat, row: int
      ensures Count(f.traps.out, l, r, row) == Count(f.eager, l, r, row) <= 1
    {
      assert Total(edges, f.traps, f.core.y, l, r, row) == Count(f.eager, l, r, row) <= 1;
    }
  }

  // Whatever the rows do, the trapezoid loop runs beside the sweep and leaves
  // nothing deferred.
  lemma {:induction false} FullRunIsRun(edges: Edges, rule: FillRule, run: seq<Full>, i: nat)
    requires ValidEdges(edges) && RunFull(edges, rule, run) && i < |run|
    ensures Inv(edges, run[i].core) && Held(run[i])
    ensures i > 0 ==> Step(edges, run[i - 1].core, run[i].core)
  {
    hide ApplyFull, Inv, Held, Legal;
    if i == 0 {
      InitInv(edges);
      InitHeld(edges);
    } else {
      FullRunIsRun(edges, rule, run, i - 1);
      assert StepFull(edges, rule, run[i - 1], run[i]);
      var k := FullChoice(edges, rule, run[i - 1], run[i]);
      StepKeepsInv(edges, run[i - 1].core, k);
      StepHeld(edges, rule, run[i - 1], k);
      ApplyFullCore(edges, rule, run[i - 1], k);
    }
  }

  lemma InitHeld(edges: Edges)
    ensures Held(InitFull(edges))
  {
  }

  lemma ApplyFullCore(edges: Edges, rule: FillRule, f: Full, k: nat)
    requires WellFormedFull(edges, f) && Legal(edges, f.core, k)
    ensures ApplyFull(edges, rule, f, k).core == Apply(edges, f.core, k)
  {
    hide Apply, PassBefore, Legal;
  }

  function Cores(run: seq<Full>): seq<State> {
    seq(|run|, i requires 0 <= i < |run| => run[i].core)
  }

  lemma CoresRun(edges: Edges, rule: FillRule, run: seq<Full>)
    requires ValidEdges(edges) && RunFull(edges, rule, run)
    ensures Run(edges, Cores(run))
  {
    hide Inv, StepFull, Step;
    forall i | 0 < i < |run| ensures Step(edges, Cores(run)[i - 1], Cores(run)[i]) {
      FullRunIsRun(edges, rule, run, i);
    }
  }

  // Every run is bounded, and a completed one has an empty line, no deferred
  // trapezoid and at most n(n-1)/2 counted intersections.
  lemma TessellationTerminates(edges: Edges, rule: FillRule, run: seq<Full>)
    requires ValidEdges(edges) && RunFull(edges, rule, run)
    ensures |run| - 1 <= |edges| * |edges| + 4 * |edges|
    ensures 2 * run[|run| - 1].core.count <= |edges| * (|edges| - 1)
    ensures Done(run[|run| - 1].core) ==>
              run[|run| - 1].core.line == [] && run[|run| - 1].traps.deferred == map[]
  {
    hide Inv, StepFull, Run;
    CoresRun(edges, rule, run);
    FullRunIsRun(edges, rule, run, |run| - 1);
    RunIsBounded(edges, Cores(run));
    var f := run[|run| - 1];
    if Done(f.core) {
      DoneIsEmpty(edges, f.core);
      assert f.traps.deferred.Keys == {};
    }
  }
}
