// What deferring trapezoids is for: a pair of edges that stays together is drawn in one
// piece (cairo-bentley-ottmann.c, lines 1152-1250 and 1303-1486).
module Coalescing {
  import opened Geometry
  import opened Events
  import opened EventQueue
  import opened Sweep
  import opened Trapezoids

  predicate SamePair(s: Strip, l: nat, r: nat) {
    s.left == l && s.right == r
  }

  // ---- One pass ----

  // A trapezoid whose pair is still inside and adjacent goes on from where it began, and
  // nothing is emitted for its left edge.
  lemma {:induction false} PassContinues(edges: Edges, rule: FillRule, line: seq<nat>, i: nat, p: nat, top: int,
                                         t: Traps)
    requires KnownLine(edges, line) && KnownTraps(edges, t) && i <= p < |line| && Distinct(line)
    requires Opens(edges, rule, line, p) && line[p] in t.deferred && t.deferred[line[p]].right == line[p + 1]
    ensures var u := Pass(edges, rule, line, i, InOut(edges, rule, line, i), top, t);
      && line[p] in u.deferred && u.deferred[line[p]] == t.deferred[line[p]]
      && t.out <= u.out && forall j :: |t.out| <= j < |u.out| ==> u.out[j].left != line[p]
    decreases |line| - i
  {
    hide Inside, EndTrap;
    var io := InOut(edges, rule, line, i + 1);
    var u := Visit(edges, rule, line, i, io, top, t);
    if i < p {
      VisitShape(edges, rule, line, i, io, top, t);
      VisitEmits(edges, rule, line, i, io, top, t);
      assert SameFor(t, u, line[p]);
      PassContinues(edges, rule, line, i + 1, p, top, u);
    } else {
      assert u == t;
      PassElsewhere(edges, rule, line, i + 1, io, top, u, line[p]);
      PassEmits(edges, rule, line, i + 1, io, top, u);
    }
  }

  // A visit emits at most the trapezoid that was deferred for its edge.
  lemma VisitEmits(edges: Edges, rule: FillRule, line: seq<nat>, i: nat, io: int, top: int, t: Traps)
    requires KnownLine(edges, line) && KnownTraps(edges, t) && i < |line|
    ensures var u, e := Visit(edges, rule, line, i, io, top, t), line[i];
      || u.out == t.out
      || (e in t.deferred && |u.out| == |t.out| + 1 && u.out[..|t.out|] == t.out
          && var s, d := u.out[|t.out|], t.deferred[e];
             s.left == e && s.right == d.right && s.top == d.top && s.top < s.bottom <= top
             && (e in u.deferred ==> u.deferred[e].right != s.right))
  {
  }

  lemma {:induction false} PassEmits(edges: Edges, rule: FillRule, line: seq<nat>, i: nat, io: int, top: int, t: Traps)
    requires KnownLine(edges, line) && KnownTraps(edges, t) && i <= |line|
    ensures var u := Pass(edges, rule, line, i, io, top, t);
      t.out <= u.out && forall j :: |t.out| <= j < |u.out| ==> u.out[j].left in line[i..]
    decreases |line| - i
  {
    hide Visit;
    if i < |line| {
      assert line[i..] == [line[i]] + line[i + 1..];
      var io' := Turn(rule, edges[line[i]], io);
      VisitEmits(edges, rule, line, i, io', top, t);
      PassEmits(edges, rule, line, i + 1, io', top, Visit(edges, rule, line, i, io', top, t));
    }
  }

  // ---- Strips of one pair are apart ----

  ghost predicate OutApart(out: seq<Strip>) {
    forall a, b :: 0 <= a < b < |out| && SamePair(out[a], out[b].left, out[b].right) ==> out[a].bottom < out[b].top
  }

  // What is deferred begins strictly below everything emitted for its pair.
  ghost predicate Apart(t: Traps) {
    && OutApart(t.out)
    && forall j, l :: 0 <= j < |t.out| && l in t.deferred && SamePair(t.out[j], l, t.deferred[l].right) ==>
         t.out[j].bottom < t.deferred[l].top
  }

  // Everything emitted for the edges ended above the row.
  ghost predicate EndedAbove(out: seq<Strip>, edges: seq<nat>, row: int) {
    forall j :: 0 <= j < |out| && out[j].left in edges ==> out[j].bottom < row
  }

  lemma VisitKeepsApart(edges: Edges, rule: FillRule, line: seq<nat>, i: nat, io: int, top: int, t: Traps)
    requires KnownLine(edges, line) && KnownTraps(edges, t) && i < |line| && Distinct(line)
    requires Apart(t) && EndedAbove(t.out, line[i..], top)
    ensures var u := Visit(edges, rule, line, i, io, top, t);
      Apart(u) && EndedAbove(u.out, line[i + 1..], top)
  {
    var u, e := Visit(edges, rule, line, i, io, top, t), line[i];
    VisitShape(edges, rule, line, i, io, top, t);
    VisitEmits(edges, rule, line, i, io, top, t);
    hide Visit, EndTrap;
    assert line[i..] == [e] + line[i + 1..];
    forall j, l | 0 <= j < |u.out| && l in u.deferred && SamePair(u.out[j], l, u.deferred[l].right)
      ensures u.out[j].bottom < u.deferred[l].top
    {
      if l != e {
        assert SameFor(t, u, l);
        assert j < |t.out| ==> u.out[j] == t.out[j];
      } else if j < |t.out| {
        assert u.out[j] == t.out[j];
      }
    }
    forall a, b | 0 <= a < b < |u.out| && SamePair(u.out[a], u.out[b].left, u.out[b].right)
      ensures u.out[a].bottom < u.out[b].top
    {
      assert u.out[a] == t.out[a];
      assert b < |t.out| ==> u.out[b] == t.out[b];
    }
  }

  lemma {:induction false} PassKeepsApart(edges: Edges, rule: FillRule, line: seq<nat>, i: nat, io: int, top: int,
                                          t: Traps)
    requires KnownLine(edges, line) && KnownTraps(edges, t) && i <= |line| && Distinct(line)
    requires Apart(t) && EndedAbove(t.out, line[i..], top) && forall j :: 0 <= j < |t.out| ==> t.out[j].bottom <= top
    ensures var u := Pass(edges, rule, line, i, io, top, t);
      Apart(u) && forall j :: 0 <= j < |u.out| ==> u.out[j].bottom <= top
    decreases |line| - i
  {
    hide Visit, Apart, EndedAbove;
    if i < |line| {
      var io' := Turn(rule, edges[line[i]], io);
      VisitKeepsApart(edges, rule, line, i, io', top, t);
      VisitEmits(edges, rule, line, i, io', top, t);
      PassKeepsApart(edges, rule, line, i + 1, io', top, Visit(edges, rule, line, i, io', top, t));
    }
  }

  lemma EndKeepsApart(edges: Edges, t: Traps, e: nat, y: int)
    requires KnownTraps(edges, t) && Apart(t)
    ensures var u := EndTrap(edges, t, e, y);
      && Apart(u) && t.out <= u.out
      && forall j :: |t.out| <= j < |u.out| ==> u.out[j].left == e && u.out[j].bottom <= y
  {
  }

  // ---- Runs ----

  // An edge that has stopped: not active, and not to start any more.
  predicate Gone(s: State, e: nat) {
    e !in s.line && Start(e) !in s.pending
  }

  ghost predicate CoalesceInv(f: Full) {
    && Apart(f.traps)
    && forall j :: 0 <= j < |f.traps.out| ==>
         f.traps.out[j].bottom < f.core.y || (f.traps.out[j].bottom == f.core.y && Gone(f.core, f.traps.out[j].left))
  }

  lemma StaysGone(edges: Edges, s: State, k: nat, e: nat)
    requires Inv(edges, s) && Legal(edges, s, k)
    ensures Gone(s, e) ==> Gone(Apply(edges, s, k), e)
    ensures NextEvent(edges, s).ev == Stop(e) ==> Gone(Apply(edges, s, k), e)
  {
    hide CompareEvents, CompareEdges, Sorted;
    TakenWaits(edges, s);
    match NextEvent(edges, s).ev
    case Start(f) => InsertAtMembers(s.line, k, f);
    case Stop(f) => DeleteAtMembers(s.line, k);
    case Crossing(e1, e2, p) => if Adjacent(s.line, k, e2) { SwapAtMembers(s.line, k); }
  }

  lemma KnownDistinct(edges: Edges, f: Full)
    requires WellFormedFull(edges, f) && Inv(edges, f.core)
    ensures KnownLine(edges, f.core.line) && Distinct(f.core.line)
  {
  }

  lemma PassBeforeApart(edges: Edges, rule: FillRule, f: Full)
    requires WellFormedFull(edges, f) && Inv(edges, f.core) && CoalesceInv(f)
    requires !NextEvent(edges, f.core).Nothing? && NextRow(edges, f.core) >= f.core.y
    ensures var g, z := PassBefore(edges, rule, f), NextRow(edges, f.core);
      && Apart(g.traps)
      && forall j :: 0 <= j < |g.traps.out| ==>
           g.traps.out[j].bottom < z || (g.traps.out[j].bottom == z && Gone(f.core, g.traps.out[j].left))
  {
    hide Apart, Pass, Eager, NextRow, NextEvent;
    var line, y := f.core.line, f.core.y;
    if NextRow(edges, f.core) != y {
      assert line[0..] == line;
      KnownDistinct(edges, f);
      PassKeepsApart(edges, rule, line, 0, 0, y, f.traps);
    }
  }

  lemma TrapsAfter(edges: Edges, rule: FillRule, f: Full, k: nat)
    requires WellFormedFull(edges, f) && Legal(edges, f.core, k)
    ensures var g, ev, r := PassBefore(edges, rule, f).traps, NextEvent(edges, f.core).ev, ApplyFull(edges, rule, f, k);
      && Refers(edges, ev)
      && r.traps == if ev.Stop? then EndTrap(edges, g, ev.edge, edges[ev.edge].bottom.y) else g
  {
    hide Apply, PassBefore, EndTrap, CompareEvents, CompareEdges;
  }

  lemma StepKeepsApart(edges: Edges, rule: FillRule, f: Full, k: nat)
    requires WellFormedFull(edges, f) && Inv(edges, f.core) && CoalesceInv(f)
    requires Legal(edges, f.core, k) && NextRow(edges, f.core) >= f.core.y
    ensures CoalesceInv(ApplyFull(edges, rule, f, k))
  {
    hide Apart, PassBefore, EndTrap, Inv, Apply, ApplyFull, Gone, CompareEvents, CompareEdges;
    var g, r, z := PassBefore(edges, rule, f), ApplyFull(edges, rule, f, k), NextRow(edges, f.core);
    var ev := NextEvent(edges, f.core).ev;
    StepRow(edges, rule, f, k);
    TrapsAfter(edges, rule, f, k);
    ApplyFullCore(edges, rule, f, k);
    PassBeforeApart(edges, rule, f);
    if ev.Stop? { EndKeepsApart(edges, g.traps, ev.edge, edges[ev.edge].bottom.y); }
    forall j | 0 <= j < |r.traps.out|
      ensures r.traps.out[j].bottom < z || (r.traps.out[j].bottom == z && Gone(r.core, r.traps.out[j].left))
    {
      StaysGone(edges, f.core, k, r.traps.out[j].left);
      if j < |g.traps.out| { assert r.traps.out[j] == g.traps.out[j]; }
    }
  }

  lemma {:induction false} ReachableApart(edges: Edges, rule: FillRule, run: seq<Full>, i: nat)
    requires ValidEdges(edges) && RunFull(edges, rule, run) && RowsNeverFall(edges, run) && i < |run|
    ensures CoalesceInv(run[i])
  {
    hide ApplyFull, CoalesceInv, Inv, Held, Legal, InitFull;
    if i == 0 {
      NothingEmitted(edges);
    } else {
      ReachableApart(edges, rule, run, i - 1);
      FullRunIsRun(edges, rule, run, i - 1);
      assert StepFull(edges, rule, run[i - 1], run[i]);
      var k := FullChoice(edges, rule, run[i - 1], run[i]);
      StepRow(edges, rule, run[i - 1], k);
      StepKeepsApart(edges, rule, run[i - 1], k);
    }
  }

  lemma NothingEmitted(edges: Edges)
    ensures CoalesceInv(InitFull(edges))
  {
  }

  // In a run whose rows never fall no two strips of one pair touch.
  lemma StripsAreApart(edges: Edges, rule: FillRule, run: seq<Full>, a: nat, b: nat)
    requires ValidEdges(edges) && RunFull(edges, rule, run) && RowsNeverFall(edges, run)
    requires var out := run[|run| - 1].traps.out;
      a < |out| && b < |out| && a != b && out[a].left == out[b].left && out[a].right == out[b].right
    ensures var out := run[|run| - 1].traps.out;
      if a < b then out[a].bottom < out[b].top else out[b].bottom < out[a].top
  {
    hide RowsNeverFall, Gone, StepFull;
    ReachableApart(edges, rule, run, |run| - 1);
    var out := run[|run| - 1].traps.out;
    assert SamePair(out[a], out[b].left, out[b].right) && SamePair(out[b], out[a].left, out[a].right);
  }

  // ---- One strip for each unbroken stretch ----

  lemma {:induction false} CountedBy(strips: seq<Strip>, l: nat, r: nat, row: int) returns (i: nat)
    requires Count(strips, l, r, row) >= 1
    ensures i < |strips| && Covers(strips[i], l, r, row)
  {
    var n := |strips| - 1;
    if Covers(strips[n], l, r, row) {
      i := n;
    } else {
      i := CountedBy(strips[..n], l, r, row);
    }
  }

  lemma {:induction false} CountsAtLeast(strips: seq<Strip>, i: nat, l: nat, r: nat, row: int)
    requires i < |strips| && Covers(strips[i], l, r, row)
    ensures Count(strips, l, r, row) >= 1
  {
    hide Covers;
    var n := |strips| - 1;
    if i < n { CountsAtLeast(strips[..n], i, l, r, row); }
  }

  // In a completed run whose rows never fall each emitted strip is an unbroken stretch of
  // the rows an eager sweep emits for its pair, and the row above it and the row below it
  // are not among these: a pair gets one trapezoid for each such stretch.
  lemma StripsAreStretches(edges: Edges, rule: FillRule, run: seq<Full>, i: nat, row: int)
    requires ValidEdges(edges) && RowsFromZero(edges)
    requires RunFull(edges, rule, run) && RowsNeverFall(edges, run) && Done(run[|run| - 1].core)
    requires i < |run[|run| - 1].traps.out|
    ensures var f := run[|run| - 1];
      var s := f.traps.out[i];
      && s.top < s.bottom
      && (s.top <= row < s.bottom ==> Count(f.eager, s.left, s.right, row) == 1)
      && Count(f.eager, s.left, s.right, s.top - 1) == 0 && Count(f.eager, s.left, s.right, s.bottom) == 0
  {
    hide RowsNeverFall, RowsFromZero, StripInRange, Count, StepFull;
    LazyRefinesEager(edges, rule, run);
    var f := run[|run| - 1];
    var out := f.traps.out;
    var s := out[i];
    StripHasRows(edges, s);
    if s.top <= row < s.bottom { CountsAtLeast(out, i, s.left, s.right, row); }
    BeyondIsFree(edges, rule, run, i, s.top - 1);
    BeyondIsFree(edges, rule, run, i, s.bottom);
  }

  lemma StripHasRows(edges: Edges, s: Strip)
    requires StripInRange(edges, s)
    ensures s.top < s.bottom
  {
  }

  lemma BeyondIsFree(edges: Edges, rule: FillRule, run: seq<Full>, i: nat, row: int)
    requires ValidEdges(edges) && RunFull(edges, rule, run) && RowsNeverFall(edges, run)
    requires var out := run[|run| - 1].traps.out;
      i < |out| && out[i].top < out[i].bottom && (row == out[i].top - 1 || row == out[i].bottom)
      && forall l: nat, r: nat, y: int :: Count(out, l, r, y) <= 1
    ensures var out := run[|run| - 1].traps.out;
      Count(out, out[i].left, out[i].right, row) == 0
  {
    hide RowsNeverFall, Count, StepFull;
    var out := run[|run| - 1].traps.out;
    var s := out[i];
    if Count(out, s.left, s.right, row) >= 1 {
      var j := CountedBy(out, s.left, s.right, row);
      StripsAreApart(edges, rule, run, i, j);
      // The other strip covers the row beside s and does not touch s, so both cover a row of s.
      var shared := if row == s.bottom then s.bottom - 1 else s.top;
      CountsTwice(out, i, j, s.left, s.right, shared);
    }
  }

  lemma {:induction false} CountsTwice(strips: seq<Strip>, i: nat, j: nat, l: nat, r: nat, row: int)
    requires i < |strips| && j < |strips| && i != j && Covers(strips[i], l, r, row) && Covers(strips[j], l, r, row)
    ensures Count(strips, l, r, row) >= 2
  {
    hide Covers;
    var n := |strips| - 1;
    if i == n {
      CountsAtLeast(strips[..n], j, l, r, row);
    } else if j == n {
      CountsAtLeast(strips[..n], i, l, r, row);
    } else {
      CountsTwice(strips[..n], i, j, l, r, row);
    }
  }
}
