# Cairo's Bentley-Ottmann tessellator, verified

This project models the part of cairo 1.8.8 that turns a polygon into trapezoids,
and proves what the sweep keeps, when it ends and what it draws. Beside it stand
smaller models of other stateful parts of the library and of its performance tools.

**The tessellator** (`cairo-bentley-ottmann.c`).

- `Arith`, `Geometry`, `Intersect`, `Events`: the comparators, determinants and the
  crossing of two edges, as the code computes them in whole numbers, each judged
  against exact rational geometry over `real`. Every comparator is the lexicographic
  comparison of an independently written key.
- `EventQueue`, `Delivery`: the two-source event queue and what a whole run takes out.
- `Sweep`, `Counting`: the main loop as a state machine over array positions. Nothing
  there assumes that stored crossing points are exact. With events taken in exact order
  it is safe in every reachable state, never stuck, and bounded.
- `Trapezoids`, `Coalescing`, `RowsFall`: deferred trapezoids against eager emission, one
  trapezoid for each unbroken stretch of it, and exactly when the current row falls.
- `Swaps`: what the swaps of a run leave behind in its count and in the stored middles.
- `Order`, `SweepOrder`, `Scanline`: with crossings at integer points, the active list
  stays in true geometric order, and the emitted trapezoids cover exactly what a
  brute-force scanline fills.
- `RowZero`, `Rounding`: what rounding can and cannot do. No run, rounded or not, queues
  a crossing that lies within 2^31 rows above the grid; and there are runs in which a
  bounding box decides wrongly, the current row falls, and a crossing farther above is
  queued.
- `ActiveList`, `DeferredTraps`, `Tessellator`: the same loop on the heap, with linked
  edges, skip-list elements, arrays and indices changed in place. Its methods are proved
  to carry out a run of the state machine, so every theorem about runs holds of them. The
  event queue there compares events exactly, as the state machine does.
- `SkipList`: the upper levels of the skip list, as positions in its bottom chain.
- `Machine`, `MachineSweep`: the comparators and determinants in wrap-around arithmetic,
  and which events and edges they see in a run.
- `MachineOrder`, `MachineSafety`, `LateCrossing`: the sweep with its events ordered by
  32-bit differences, as the code orders them. On edges that a caller can tell to fit it
  is the sweep in exact order; otherwise it is safe exactly as long as no edge stops while
  a crossing of it is queued, and there is a run in which one does.
- `Polygon`, `PolygonFill`: the offset and clamp of the input, the whole way from polygon
  to trapezoids, and their fill in terms of the polygon as it was given.

**The others.** `Base85` (the encoder, against a decoder written from section 7.4.3 of
ISO 32000-1), `AnalysisSurface` (what a page analysis records), `CairoArray` and
`UserData` (growth, snapshots, destruction), `PerfReport` and `Stats` (condensing,
joining and trimming performance reports), `Atomic` (mutex-based atomics as
interleaved steps).

## How things are represented

Edge pointers, and the order of their addresses, are positions in the edge array. The
state machine of the sweep is nondeterministic in one place only: the position at which
an edge is inserted, which has to be bracketed by its neighbours as the skip list
brackets it. The heap model walks the bottom chain of the skip list and finds such a
place; `SkipList.FindLinks` shows that the walk down through the upper levels does too,
whatever they hold and however the comparisons come out.

The main theorems about runs have the form "for every edge set and every run"; the heap
method `Tessellator.Tessellate` ends with such a run in hand, and
`Polygon.TessellatePolygon` starts from a polygon as the caller gives it.

Coordinates are unbounded integers, except in `Machine`, `MachineSweep`, `MachineOrder`,
`MachineSafety`, `LateCrossing` and `Polygon`. After the clamp nothing wraps around in the
determinants, nor, in any run, when edges are compared. When events are compared one
difference can: between columns 2^31 or more apart on one row, of which one belongs to the
stored point of a crossing more than 2^31 rows above the grid
(`MachineSweep.WaitingAreInGrid`, `MachineOrder.WaitingOrderExactly`). Then the code takes
events in another order than `Sweep` and `Tessellator` do, and the theorems on queue
safety do not hold of it: `LateCrossing.CrossingOutlivesItsEdge` is a run on four edges
that dequeues an intersection after one of its edges has stopped. They do hold of it, and
so does everything said of runs, where no two ends and reportable crossings of the edges
are on one row that far apart (`MachineOrder.RowsFit`), where crossings are at integer
points, and in any run that has no two such events waiting at a time
(`MachineOrder.MachineRunsAreRuns`, `MachineSafety.FittingRunIsRun`).

## Where code and documentation differ

- The snapshot of an array is documented as an immutable copy
  (`cairo-array.c`, line 70). It is a view: it stays what it was, whatever is appended
  and whenever, if and only if the array is never truncated below the snapshot's count
  (`CairoArray.KeptExactly`). After such a truncation the next append cannot fail and
  writes through (`CairoArray.TruncateAndAppend`).
- The comment on `_cairo_meta_surface_replay_and_create_regions` lists UNSUPPORTED and
  FLATTEN_TRANSPARENCY among the answers that a replay survives; the code accepts SUCCESS
  and IMAGE_FALLBACK. The model follows the code.
- `test_report_cmp_backend_then_name` says a NULL name is forced last. It comes after a
  name if and only if its backend and content do not put it before
  (`PerfReport.NullNameIsLastInItsPlace`, `PerfReport.NullNameFirst`). No caller compares
  one: sorting covers the tests before the NULL name that ends a report.
- The comments on crossings (`cairo-bentley-ottmann.c`, lines 678-684) speak of points
  rounded to the nearest integer and of looking at crossings inside both edges. Quotients
  are truncated and then cut to 32 bits, and `Intersect.MeetsIffSeenInside` says what is
  reported of any two edges. At non-negative ordinates the point is a floor and the test is
  right; above row 0 it is wrong exactly as `Intersect.MisjudgedExactly` (down to row
  -2^31) and `Intersect.MisjudgedFarExactly` (beyond) say. Of these, crossings down to row
  -2^31 are only misjudged in isolation: no reachable state asks about them in a way that
  reports them (`RowZero.QueuedAreTrueOrFar`). Farther ones can be queued
  (`Rounding.FarCrossingIsQueued`), though not where the order is true
  (`Intersect.MeetingBelowIsExact`).
- An intersection is queued to be dequeued before either of its edges stops. In the
  machine's order of events it is if and only if it is stored on another row than the end
  of the edge, or no more than 2^31 columns left of it
  (`MachineOrder.CrossingBeforeStopsExactly`).
- The bounding-box shortcut is described as merely saving work. It does no more than that
  if and only if the boxes overlap or agree with the exact order
  (`Geometry.CompareEdgesIsLexExactly`), which they do for middles on their edges
  (`Geometry.CompareEdgesIsLex`). After a crossing point was rounded to a row above itself
  they can decide wrongly where an edge is inserted (`Rounding.BoxesDecideWrongly`).
- A surface of size -1 by -1 is analysed without bounds until its clip is reset; then
  nothing drawn on it is visible (`AnalysisSurface.NothingVisibleAfterReset`).

## Model

| member | source | states |
|---|---|---|
| Geometry.SlopeCompareIsExact | cairo-1.8.8/src/cairo-bentley-ottmann.c:187-213 | the comparison without division has the sign of the difference of the exact slopes |
| Geometry.CompareXGeneralIsExact | cairo-1.8.8/src/cairo-bentley-ottmann.c:215-272 | the cross-multiplied comparison has the sign of the exact difference of abscissae on the row |
| Geometry.CompareAgainstXIsExact | cairo-1.8.8/src/cairo-bentley-ottmann.c:274-316 | comparing an edge with a given abscissa has the sign of the exact difference |
| Geometry.CompareXIsExact | cairo-1.8.8/src/cairo-bentley-ottmann.c:318-361 | all four cases of known and unknown end abscissae give the sign of the exact difference |
| Geometry.CompareEdgesIsLexExactly | cairo-1.8.8/src/cairo-bentley-ottmann.c:363-429 | for any two edges and any middles the cascade compares the key (abscissa, slope, top, bottom, identity) lexicographically if and only if the bounding boxes overlap or order the edges as the key does |
| Geometry.CompareEdgesIsLex | cairo-1.8.8/src/cairo-bentley-ottmann.c:363-429 | they do so for edges whose middle lies on them, at or above the row |
| Geometry.CompareEdgesTotal | cairo-1.8.8/src/cairo-bentley-ottmann.c:363-429 | it is zero only for one edge, and antisymmetric, for any middles |
| Geometry.CompareEdgesTransitive | cairo-1.8.8/src/cairo-bentley-ottmann.c:363-429 | it is transitive on edges spanning the row whose middles lie on them |
| Intersect.MeetsIffInside | cairo-1.8.8/src/cairo-bentley-ottmann.c:608-776 | for crossings at non-negative ordinates a meeting is reported if and only if the exact crossing is strictly inside both edges in sweep order, and the point is its floor |
| Intersect.OrdinateIsExact | cairo-1.8.8/src/cairo-bentley-ottmann.c:638-671 | quotient and remainder order the exact rational ordinate against any coordinate, and give its floor |
| Intersect.MeetIsBeforeBottoms | cairo-1.8.8/src/cairo-bentley-ottmann.c:673-776 | rounded or not, a reported point is strictly before both bottoms in sweep order and not above either top |
| Intersect.MeetingBelowConverges | cairo-1.8.8/src/cairo-bentley-ottmann.c:894-927 | a queued intersection always has the greater slope on the left |
| Intersect.PruningIsSound | cairo-1.8.8/src/cairo-bentley-ottmann.c:894-927 | with left at or before right on the row, the slope test discards no crossing below it |
| Intersect.MeetingBelowIsExact | cairo-1.8.8/src/cairo-bentley-ottmann.c:894-927 | with left at or before right on some row from 0 on, a meeting is queued if and only if the edges converge and cross inside both, at the floor of the exact crossing |
| Intersect.MeetsIffSeenInside | cairo-1.8.8/src/cairo-bentley-ottmann.c:608-776 | for all edges, in range or not: a meeting is reported if and only if both quotients are below 2^32 in size and the crossing, as truncation and the cut to 32 bits make it seen, is strictly inside both; and the point reported is that |
| Intersect.MisjudgedIff | cairo-1.8.8/src/cairo-bentley-ottmann.c:673-776 | for edges in range every crossing inside both is reported, and a report is wrong if and only if the crossing lies above row 0 and is seen inside both |
| Intersect.MisjudgedExactly | cairo-1.8.8/src/cairo-bentley-ottmann.c:608-776 | a crossing between row -2^31 and row 0 is wrongly reported if and only if it is less than one row above and both edges start on row 0 |
| Intersect.MisjudgedFarExactly | cairo-1.8.8/src/cairo-bentley-ottmann.c:638-653 | a crossing above row -2^31 is wrongly reported if and only if both quotients are below 2^32 in size and the crossing moved down by 2^32 rows is inside both |
| Intersect.MisjudgedJustAboveTheGrid | cairo-1.8.8/src/cairo-bentley-ottmann.c:608-776 | a concrete pair that crosses above row 0 is reported as meeting on row 0; wrong in isolation only, as RowZero.QueuedAreTrueOrFar shows |
| Intersect.MisjudgedFarAboveTheGrid | cairo-1.8.8/src/cairo-bentley-ottmann.c:644-653 | a concrete pair whose ordinate wraps into the grid when it is cut to 32 bits; Rounding.FarCrossingIsQueued has a run that queues such a crossing |
| Intersect.ReportedPointInGrid | cairo-1.8.8/src/cairo-bentley-ottmann.c:608-653 | the row of a reported point is in the grid, and its column leaves the grid if and only if the exact column is in (-2^31 - 1, -1] or from 2^31 on; never for a crossing inside both |
| Events.CompareEventsIsLex | cairo-1.8.8/src/cairo-bentley-ottmann.c:445-540 | the event comparison is the lexicographic comparison of an independent key: point, kind, opposite points, addresses |
| Events.CompareEventsTotal | cairo-1.8.8/src/cairo-bentley-ottmann.c:445-540 | it is zero only for equal events, and antisymmetric |
| Events.CompareEventsTransitive | cairo-1.8.8/src/cairo-bentley-ottmann.c:445-540 | it is transitive |
| Events.StartBeforeStop | cairo-1.8.8/src/cairo-bentley-ottmann.c:445-540 | an edge's start comes before its stop |
| Events.OrderIsByPoint | cairo-1.8.8/src/cairo-bentley-ottmann.c:445-540 | events are ordered by point first, and at one point STOP comes before INTERSECTION before START |
| EventQueue.InsertKeepsSorted | cairo-1.8.8/src/cairo-bentley-ottmann.c:791-801 | inserting keeps the queue sorted, adds exactly the event, and adds no event twice |
| EventQueue.SortSorts | cairo-1.8.8/src/cairo-bentley-ottmann.c:831-884 | the start and stop events are sorted, with no event lost or added |
| EventQueue.SortedIsUnique | cairo-1.8.8/src/cairo-bentley-ottmann.c:868-884 | there is one sorted arrangement, so any sorting routine produces it |
| EventQueue.NextIsMinimum | cairo-1.8.8/src/cairo-bentley-ottmann.c:811-829 | dequeuing over both sources returns the least waiting event of the exact order, and nothing only when nothing waits |
| Delivery.StepDelivers | cairo-1.8.8/src/cairo-bentley-ottmann.c:1378-1396 | every iteration takes an event strictly before all others waiting, and takes nothing else off the start and stop events |
| Delivery.DeliveredThenPending | cairo-1.8.8/src/cairo-bentley-ottmann.c:811-829 | in every run the start and stop events delivered, followed by those pending, are the sorted events |
| Delivery.DeliveredOnceInOrder | cairo-1.8.8/src/cairo-bentley-ottmann.c:811-884 | a completed run delivers every start and every stop exactly once, the start of an edge before its stop |
| Sweep.InitInv | cairo-1.8.8/src/cairo-bentley-ottmann.c:831-884 | the sweep's invariant holds at the start |
| Sweep.CrossingBeforeStops | cairo-1.8.8/src/cairo-bentley-ottmann.c:690-829 | in the exact order of events a queued intersection is dequeued before either of its edges stops; MachineOrder.CrossingBeforeStopsExactly is about the machine's order |
| Sweep.QueueMeetingSound | cairo-1.8.8/src/cairo-bentley-ottmann.c:894-927 | queuing a meeting adds exactly the reported meeting of the two neighbours |
| Sweep.StepKeepsInv | cairo-1.8.8/src/cairo-bentley-ottmann.c:1378-1484 | with events in exact order every iteration keeps the invariant: distinct active edges, sorted queues, edges active exactly between their events, sound intersections |
| Sweep.ReachableInv | cairo-1.8.8/src/cairo-bentley-ottmann.c:1378-1484 | with events in exact order, in every reachable state each queued intersection names two active edges that meet there |
| Sweep.NeverStuck | cairo-1.8.8/src/cairo-bentley-ottmann.c:1378-1484 | with events in exact order, while an event waits an iteration is possible: the edges it follows pointers of are on the list |
| Sweep.DoneIsEmpty | cairo-1.8.8/src/cairo-bentley-ottmann.c:1486-1496 | when the queue runs dry the sweep line is empty |
| RowZero.StepKeepsRowZero | cairo-1.8.8/src/cairo-bentley-ottmann.c:1378-1484 | every iteration keeps: converging active edges from row 0 stand in the order of their starts, and every queued intersection is true or far above the grid |
| RowZero.QueuedAreTrueOrFar | cairo-1.8.8/src/cairo-bentley-ottmann.c:894-927 | in every reachable state, rounding or not, a queued intersection is a true crossing strictly inside both edges, stored at its floor, or lies above row -2^31, and so does whatever would be reported of two active edges in list order |
| Rounding.BoxesDecideWrongly | cairo-1.8.8/src/cairo-bentley-ottmann.c:373-394 | a run in which the boxes put a starting edge right of one that is right of it on the row |
| Rounding.RowsCanFall | cairo-1.8.8/src/cairo-bentley-ottmann.c:1378-1484 | a run in which the sweep is on row 2 and the next event, a queued crossing, is on row 1; RowsFall.StepFallsExactly says when this happens |
| Rounding.FarCrossingIsQueued | cairo-1.8.8/src/cairo-bentley-ottmann.c:894-927 | a run that queues a crossing in the grid for two edges that cross above row -2^31 |
| Sweep.SwappableShrinks | cairo-1.8.8/src/cairo-bentley-ottmann.c:1446-1479 | no iteration makes a pair of edges swappable again, and a swap uses its pair up |
| Sweep.RemainingFalls | cairo-1.8.8/src/cairo-bentley-ottmann.c:1378-1484 | a measure of queue and unswapped pairs falls in every iteration |
| Sweep.RunIsBounded | cairo-1.8.8/src/cairo-bentley-ottmann.c:1378-1486 | any run in exact order on n edges takes at most n*n + 4n iterations and counts at most n(n-1)/2 intersections |
| Swaps.CountIsSwaps | cairo-1.8.8/src/cairo-bentley-ottmann.c:1446-1455 | in every run the intersections counted are the iterations whose event is a crossing of two edges side by side in its order |
| Swaps.MiddleIsLastSwap | cairo-1.8.8/src/cairo-bentley-ottmann.c:1446-1458 | in every run the stored middle of an edge is the point of the last crossing it was swapped at, and its top before any |
| Trapezoids.EndTrapTotal | cairo-1.8.8/src/cairo-bentley-ottmann.c:1152-1218 | ending a trapezoid turns exactly what it stood for into an emitted strip |
| Trapezoids.StartOrContinueTotal | cairo-1.8.8/src/cairo-bentley-ottmann.c:1220-1250 | starting or continuing a trapezoid changes no row already accounted for; that it is continued, and when, is in Coalescing.PassContinues and Coalescing.StripsAreStretches |
| Trapezoids.PassTotal | cairo-1.8.8/src/cairo-bentley-ottmann.c:1303-1341 | a whole pass over the active edges changes no row already accounted for |
| Trapezoids.PassAt | cairo-1.8.8/src/cairo-bentley-ottmann.c:1303-1341 | after a pass an edge has a deferred trapezoid exactly when it is inside and has a neighbour, which is then its right side |
| Trapezoids.ReachableTrapInv | cairo-1.8.8/src/cairo-bentley-ottmann.c:1303-1486 | in every run whose rows never fall, strips emitted plus strips deferred are the strips of an eager sweep |
| Trapezoids.LazyRefinesEager | cairo-1.8.8/src/cairo-bentley-ottmann.c:1152-1341 | in a completed run whose rows never fall the lazily emitted strips cover each row of each pair exactly as eager emission does, once, with top below bottom, within both edges, and never between edges that have the same ends; RowsFall.LazyRefinesEagerInOrder says when rows never fall |
| Coalescing.PassContinues | cairo-1.8.8/src/cairo-bentley-ottmann.c:1220-1250 | a pass leaves a trapezoid as it is, top and all, and emits nothing for its left edge, while its pair is inside and adjacent |
| Coalescing.StripsAreApart | cairo-1.8.8/src/cairo-bentley-ottmann.c:1152-1341 | in every run whose rows never fall, of two strips emitted for one pair one ends strictly above the other |
| Coalescing.StripsAreStretches | cairo-1.8.8/src/cairo-bentley-ottmann.c:1152-1341 | in a completed run whose rows never fall every emitted strip is a whole unbroken stretch of the rows that an eager sweep emits for its pair: all its rows are among these, and the row above it and the row below it are not |
| RowsFall.PendingNotAbove | cairo-1.8.8/src/cairo-bentley-ottmann.c:811-829 | in every reachable state no pending start or stop lies above the current row |
| RowsFall.FallsExactly | cairo-1.8.8/src/cairo-bentley-ottmann.c:1378-1396 | in every reachable state the next event lies above the current row if and only if some queued crossing does |
| RowsFall.StepFallsExactly | cairo-1.8.8/src/cairo-bentley-ottmann.c:894-927 | an iteration of a run falls to a row above if and only if the edges of some queued crossing are out of order on the row it starts from (or, of a crossing above row -2^31, its stored point is above it) |
| RowsFall.RowsNeverFallExactly | cairo-1.8.8/src/cairo-bentley-ottmann.c:1378-1486 | the rows of a run never fall if and only if all queued pairs are in order on the row in every state an iteration starts from |
| RowsFall.LazyRefinesEagerInOrder | cairo-1.8.8/src/cairo-bentley-ottmann.c:1152-1341 | in a completed run whose queued pairs are always in order on the row, deferred trapezoids refine eager ones |
| Trapezoids.FullRunIsRun | cairo-1.8.8/src/cairo-bentley-ottmann.c:1378-1486 | with its trapezoids the loop is a run of the sweep, and deferred trapezoids belong to active edges |
| Trapezoids.TessellationTerminates | cairo-1.8.8/src/cairo-bentley-ottmann.c:1378-1496 | every run is bounded; a completed one leaves no active edge and no deferred trapezoid |
| SweepOrder.StepKeepsOrder | cairo-1.8.8/src/cairo-bentley-ottmann.c:1378-1484 | with integer crossings every iteration keeps the active list in exact geometric order, every crossing of neighbours queued, every middle on its edge, and the row does not fall |
| SweepOrder.MeetingIsQueued | cairo-1.8.8/src/cairo-bentley-ottmann.c:894-927 | two neighbours in order that cross ahead get their crossing queued |
| SweepOrder.StartKeepsOrder | cairo-1.8.8/src/cairo-bentley-ottmann.c:1399-1423 | inserting a started edge keeps that order |
| SweepOrder.StopKeepsOrder | cairo-1.8.8/src/cairo-bentley-ottmann.c:1425-1444 | deleting a stopped edge keeps that order |
| SweepOrder.SwapKeepsOrder | cairo-1.8.8/src/cairo-bentley-ottmann.c:1446-1479 | swapping at a crossing keeps that order |
| Scanline.FilledByRule | cairo-1.8.8/src/cairo-bentley-ottmann.c:1311-1327 | the count the loop keeps fills a point exactly when different numbers of edges pass it each way, or an odd number in all |
| Scanline.PassFills | cairo-1.8.8/src/cairo-bentley-ottmann.c:1303-1341 | a pass over a list in true order covers exactly the filled points of the row, each by one pair |
| Scanline.SweepFillsScanline | cairo-1.8.8/src/cairo-bentley-ottmann.c:1303-1499 | for any edges in range that cross at integer points, on every row where nothing happens and off the edges, the emitted trapezoids cover exactly the points whose winding number is non-zero (or odd count), each once |
| Scanline.ClosedIsFilledByRule | cairo-1.8.8/src/cairo-bentley-ottmann.c:1303-1341 | for closed contours a point is filled if and only if the fill rule puts it inside |
| ActiveList.SweepLine.Insert | cairo-1.8.8/src/cairo-bentley-ottmann.c:946-978 | puts the edge at one place in list and skip list alike, between neighbours that compare less and greater |
| ActiveList.SweepLine.FindPlace | cairo-1.8.8/src/cairo-skiplist.c:313-345 | finds a place whose neighbours bracket the edge |
| ActiveList.SweepLine.Chain | cairo-1.8.8/src/cairo-skiplist.c:361-385 | links a new element into the bottom chain |
| ActiveList.SweepLine.Link | cairo-1.8.8/src/cairo-bentley-ottmann.c:955-976 | links the edge into the doubly linked list |
| ActiveList.SweepLine.Delete | cairo-1.8.8/src/cairo-bentley-ottmann.c:980-998 | takes the edge out of list and skip list |
| ActiveList.SweepLine.Swap | cairo-1.8.8/src/cairo-bentley-ottmann.c:1000-1037 | exchanges two neighbours in list and skip list |
| ActiveList.SweepLine.Validate | cairo-1.8.8/src/cairo-bentley-ottmann.c:1274-1299 | the check that both structures agree never fails |
| SkipList.Walk | cairo-1.8.8/src/cairo-skiplist.c:328-343 | along one level the search passes every element that compares less, and leaves none of them between its link and the element it stopped at |
| SkipList.FindLinks | cairo-1.8.8/src/cairo-skiplist.c:324-351 | however elements compare, the search down the levels ends at an equal one or between a lesser and a greater one, with the links over that place at every level; in a consistent order it finds an equal element exactly when there is one |
| SkipList.InsertKeepsLevels | cairo-1.8.8/src/cairo-skiplist.c:352-382 | linking a new element of any height into those links keeps every level in order and within the one below it; each level holds what it held and, up to the height, the new element |
| SkipList.DeleteKeepsLevels | cairo-1.8.8/src/cairo-skiplist.c:448-485 | so does deleting an element; each level holds what it held but that element, and exactly the levels left empty are dropped |
| DeferredTraps.EndEdgeTrap | cairo-1.8.8/src/cairo-bentley-ottmann.c:1152-1218 | on the heap, ends a trapezoid as its specification says and emits the strip in the caller's coordinates |
| DeferredTraps.StartOrContinueEdgeTrap | cairo-1.8.8/src/cairo-bentley-ottmann.c:1220-1250 | on the heap, starts or continues a trapezoid as its specification says; what that gives is in Coalescing |
| DeferredTraps.ActiveEdgesToTraps | cairo-1.8.8/src/cairo-bentley-ottmann.c:1303-1341 | the loop over the linked edges is the pass of the specification |
| Tessellator.BoEventQueue.constructor | cairo-1.8.8/src/cairo-bentley-ottmann.c:831-884 | sets up the sorted events and puts every middle at its top |
| Tessellator.BoEventQueue.Dequeue | cairo-1.8.8/src/cairo-bentley-ottmann.c:811-829 | returns the event that comes first in exact order and steps over a start or stop; it is the one the machine dequeues if and only if the first events of the two sources fit |
| Tessellator.BoEventQueue.Delete | cairo-1.8.8/src/cairo-bentley-ottmann.c:803-809 | removes a dequeued intersection |
| Tessellator.BoEventQueue.InsertIfIntersect | cairo-1.8.8/src/cairo-bentley-ottmann.c:894-927 | queues the meeting of two neighbours as specified, null neighbours included |
| Tessellator.StartEvent | cairo-1.8.8/src/cairo-bentley-ottmann.c:1399-1423 | carries out a start on list, skip list and queue |
| Tessellator.StopEvent | cairo-1.8.8/src/cairo-bentley-ottmann.c:1425-1439 | carries out a stop |
| Tessellator.CrossingEvent | cairo-1.8.8/src/cairo-bentley-ottmann.c:1454-1474 | carries out a swap and moves both middles |
| Tessellator.TakeEvent | cairo-1.8.8/src/cairo-bentley-ottmann.c:1380-1396 | takes the next event, with the pass a new row calls for |
| Tessellator.Iterate | cairo-1.8.8/src/cairo-bentley-ottmann.c:1378-1484 | one iteration of the loop is a legal step of the sweep with its trapezoids |
| Tessellator.Finished | cairo-1.8.8/src/cairo-bentley-ottmann.c:1486-1496 | when no event is left the list is empty and nothing is deferred |
| Tessellator.Tessellate | cairo-1.8.8/src/cairo-bentley-ottmann.c:1346-1499 | with events in exact order, terminates with a completed run whose strips are those emitted and whose count is the one reported, and leaves no trapezoid open; where waiting events fit, the run is the machine's |
| Machine.SlopeCompareFits | cairo-1.8.8/src/cairo-bentley-ottmann.c:187-213 | with 32-bit differences and 64-bit products the slope comparison is the exact one |
| Machine.CompareXGeneralFits | cairo-1.8.8/src/cairo-bentley-ottmann.c:238-272 | with 128-bit products the general comparison is the exact one |
| Machine.CompareAgainstXFits | cairo-1.8.8/src/cairo-bentley-ottmann.c:297-316 | with 64-bit products the comparison against an abscissa is the exact one |
| Machine.ComparePointsFits | cairo-1.8.8/src/cairo-bentley-ottmann.c:144-151 | with 32-bit differences points in the grid are ordered exactly |
| Machine.ComparePointsFitsExactly | cairo-1.8.8/src/cairo-bentley-ottmann.c:144-151 | points on rows of the grid in any 32-bit columns are ordered rightly if and only if they differ in row or the difference of their columns fits 32 bits |
| Machine.CompareXFits | cairo-1.8.8/src/cairo-bentley-ottmann.c:318-361 | in all four cases the machine comparison is the exact one |
| Machine.CompareEdgesFits | cairo-1.8.8/src/cairo-bentley-ottmann.c:363-429 | so is the whole cascade, for edges in range wherever their middles are |
| Machine.OperandsFit | cairo-1.8.8/src/cairo-bentley-ottmann.c:570-653 | the denominator fits 64 bits, both numerators fit 96, and all wrap-around results are the exact determinants |
| Machine.SlopesTurnBeyondTheClamp | cairo-1.8.8/src/cairo-bentley-ottmann.c:187-213 | beside an upright edge of 32-bit height the slope of an edge of 32-bit height with 32-bit abscissae is judged rightly if and only if its width fits 32 bits too |
| MachineSweep.CompareEventsFits | cairo-1.8.8/src/cairo-bentley-ottmann.c:445-540 | events at points in the grid are compared exactly in machine integers |
| MachineSweep.MeetingIsInGrid | cairo-1.8.8/src/cairo-bentley-ottmann.c:894-927 | with left at or before right on some row from 0 on, what is queued lies in the grid |
| MachineSweep.WaitingAreInGrid | cairo-1.8.8/src/cairo-bentley-ottmann.c:1378-1396 | in every reachable state, rounding or not, the point of a waiting event is on a row of the grid, and in the grid if and only if it is not that of a crossing above row -2^31 in a column out of it |
| MachineSweep.EdgeComparisonsFit | cairo-1.8.8/src/cairo-bentley-ottmann.c:363-429 | in every reachable state edges are compared exactly in machine integers on the row of the next event |
| MachineSweep.NothingLeavesTheGrid | cairo-1.8.8/src/cairo-bentley-ottmann.c:1378-1484 | where the order is true and crossings are at integer points, every waiting event is in the grid and all are compared exactly |
| MachineOrder.SameOrderExactly | cairo-1.8.8/src/cairo-bentley-ottmann.c:445-540 | for any two events stored on rows of the grid in 32-bit columns the machine's comparison has the exact sign if and only if the rows differ or the difference of the columns fits 32 bits |
| MachineOrder.WaitingOrderExactly | cairo-1.8.8/src/cairo-bentley-ottmann.c:445-540 | the same for any two waiting events of any reachable state |
| MachineOrder.CrossingBeforeStopsExactly | cairo-1.8.8/src/cairo-bentley-ottmann.c:690-829 | the machine orders a queued intersection before the stop of its edge if and only if the rows differ or the columns fit |
| MachineOrder.DequeuesAgreeExactly | cairo-1.8.8/src/cairo-bentley-ottmann.c:811-829 | the machine dequeues the event the exact order does if and only if the first ones of the two sources fit |
| MachineOrder.InsertAgrees | cairo-1.8.8/src/cairo-bentley-ottmann.c:791-801 | wherever the search of the skip list may end, inserting among events that fit gives the sorted queue with the event |
| MachineOrder.RunsAgree | cairo-1.8.8/src/cairo-bentley-ottmann.c:1378-1484 | if waiting events fit in all states the exact sweep reaches, the runs of the machine's sweep are exactly those of the exact one |
| MachineOrder.RowsFitExactly | cairo-1.8.8/src/cairo-bentley-ottmann.c:445-540 | the ends of the edges and all crossings a run may queue fit pairwise if and only if the machine orders all of them as it should |
| MachineOrder.MachineRunsAreRuns | cairo-1.8.8/src/cairo-bentley-ottmann.c:1378-1484 | on edges whose ends and reportable crossings fit pairwise, or that cross at integer points only, the runs of the machine's sweep are exactly those of the exact one |
| MachineOrder.MachineSweepIsSafe | cairo-1.8.8/src/cairo-bentley-ottmann.c:1378-1496 | then the machine's sweep keeps the invariant in every run, is never stuck, is bounded, and leaves nothing active |
| MachineOrder.FullRunIsMachineRun | cairo-1.8.8/src/cairo-bentley-ottmann.c:1303-1486 | then a run with its trapezoids is one of the machine's sweep |
| MachineSafety.StepKeepsSafeExactly | cairo-1.8.8/src/cairo-bentley-ottmann.c:1378-1484 | for any order the differences make of the events, an iteration from a safe state leads to a safe one if and only if it does not stop an edge that a queued intersection names |
| MachineSafety.MachineRunIsSafeExactly | cairo-1.8.8/src/cairo-bentley-ottmann.c:1378-1484 | every state of a run of the machine's sweep is safe if and only if no iteration of it does so |
| MachineSafety.StopsTooSoonExactly | cairo-1.8.8/src/cairo-bentley-ottmann.c:811-829 | a stop is taken before the first queued intersection of its edge if and only if both are on one row and the intersection is 2^31 columns or more to the left |
| MachineSafety.SafeIsNotStuck | cairo-1.8.8/src/cairo-bentley-ottmann.c:1378-1484 | in a safe state an iteration is possible while an event waits, whatever the order of events |
| MachineSafety.FittingRunIsRun | cairo-1.8.8/src/cairo-bentley-ottmann.c:1378-1484 | a run of the machine's sweep is a run in exact order, and safe, as long as waiting events fit |
| LateCrossing.CrossingOutlivesItsEdge | cairo-1.8.8/src/cairo-bentley-ottmann.c:1425-1484 | a run of the machine's sweep on four edges in range that stops an edge before a crossing of it, which the exact order takes first, and then dequeues the crossing of an edge that is gone |
| Polygon.BoundingBox | cairo-1.8.8/src/cairo-bentley-ottmann.c:1543-1552 | the loop finds the least and greatest coordinate of all end points |
| Polygon.OffsetIsClamp | cairo-1.8.8/src/cairo-bentley-ottmann.c:1563-1594 | in wrap-around arithmetic every coordinate v becomes min(v - vmin, 2^31 - 1) |
| Polygon.ClampKeepsOrder | cairo-1.8.8/src/cairo-bentley-ottmann.c:1554-1602 | the clamp keeps order and merges only coordinates beyond it, so the orientation assertion never fails |
| Polygon.KeptEdgesFit | cairo-1.8.8/src/cairo-bentley-ottmann.c:1596-1617 | every edge handed on points downward and lies in [0, 2^31 - 1] |
| Polygon.MakeEdge | cairo-1.8.8/src/cairo-bentley-ottmann.c:1568-1617 | an edge is discarded exactly when it lies outside the limits or the clamp made it horizontal, and is otherwise the clamped edge |
| Polygon.MakeEdges | cairo-1.8.8/src/cairo-bentley-ottmann.c:1568-1620 | the loop hands on the kept edges, in order |
| Polygon.TessellatePolygon | cairo-1.8.8/src/cairo-bentley-ottmann.c:1512-1633 | the trapezoids returned are those of a completed run on the kept edges, moved back by the corner of the box; none for an empty polygon |
| Polygon.PolygonIsFilled | cairo-1.8.8/src/cairo-bentley-ottmann.c:1512-1633 | in the caller's coordinates the trapezoids cover exactly what the scanline fill of the kept edges fills, each point once |
| Polygon.LimitsKeepTheFill | cairo-1.8.8/src/cairo-bentley-ottmann.c:1573-1578 | discarding edges outside the limits changes no fill between them |
| Polygon.LimitsExactly | cairo-1.8.8/src/cairo-bentley-ottmann.c:1573-1578 | for limits with room between them an edge is discarded if and only if it reaches no row strictly between them |
| PolygonFill.PolygonFillsItself | cairo-1.8.8/src/cairo-bentley-ottmann.c:1512-1633 | for a polygon less than 2^31 wide and high whose own edges cross at integer points, the trapezoids cover, on quiet rows between the limits and off the edges, exactly what the scanline fill of the polygon as given fills, each point once |
| Base85.ExpandFourTupleToFive | cairo-1.8.8/src/cairo-base85-stream.c:47-65 | the loop produces the five base-85 digits, most significant first, and tells when all four bytes are zero |
| Base85.Base85Stream.Write | cairo-1.8.8/src/cairo-base85-stream.c:67-91 | output and pending bytes become those of feeding the data byte by byte |
| Base85.Base85Stream.Close | cairo-1.8.8/src/cairo-base85-stream.c:93-109 | writes the partial group and the end marker |
| Base85.OnlyConcatenationCounts | cairo-1.8.8/src/cairo-base85-stream.c:67-91 | the output depends only on the concatenation of the writes |
| Base85.FeedIsEncode | cairo-1.8.8/src/cairo-base85-stream.c:67-109 | feeding and closing gives the encoding group by group |
| Base85.DecodeFullGroup | cairo-1.8.8/src/cairo-base85-stream.c:80-86 | a full group decodes to its four bytes; it is z exactly for four zero bytes and five characters otherwise |
| Base85.DecodePartial | cairo-1.8.8/src/cairo-base85-stream.c:99-103 | a last group of 1 to 3 bytes, cut to one digit more, decodes to its bytes |
| Base85.EndMarkerOnlyAtEnd | cairo-1.8.8/src/cairo-base85-stream.c:105-106 | the end marker comes last and nowhere else |
| Base85.RoundTrip | cairo-1.8.8/src/cairo-base85-stream.c:67-109 | for all data and all ways of splitting it across writes the closed stream decodes to the data, with white space put in or not |
| AnalysisSurface.MergeIsMaximum | cairo-1.8.8/src/cairo-analysis-surface.c:65-95 | merging takes the more important status, in any order |
| AnalysisSurface.RoundOutIsLeast | cairo-1.8.8/src/cairo-rectangle.c:88-96 | rounding a box gives the least rectangle around it, visible when the box has an inside |
| AnalysisSurface.BoxHoldsCells | cairo-1.8.8/src/cairo-rectangle.c:63-72 | the fixed-point box of a rectangle holds exactly the pixels of the rectangle |
| AnalysisSurface.RegionsAreUnions | cairo-1.8.8/src/cairo-analysis-surface.c:152-263 | over any run the regions are the unions of the rectangles answered so, and the flags mirror whether they are empty |
| AnalysisSurface.PageIsLeast | cairo-1.8.8/src/cairo-analysis-surface.c:200-212 | the page box is the least box of all visible operations |
| AnalysisSurface.NothingIsLost | cairo-1.8.8/src/cairo-analysis-surface.c:214-263 | every cell of every visible operation ends in one of the regions |
| AnalysisSurface.AnsweredNatively | cairo-1.8.8/src/cairo-analysis-surface.c:214-242 | exactly when an operation is native: outside the fallback so far, and with transparency only clear of everything native before |
| AnalysisSurface.NestedTransforms | cairo-1.8.8/src/cairo-analysis-surface.c:122-136 | a point of a recording reaches the page through its pattern and then through the frame around it; the clip is the whole recording |
| AnalysisSurface.NestedMovesExactly | cairo-1.8.8/src/cairo-analysis-surface.c:122-136 | a recording is analysed without a matrix if and only if pattern and frame together leave every point where it is |
| AnalysisSurface.ClipExactly | cairo-1.8.8/src/cairo-analysis-surface.c:278-311 | after any commands a pixel is in the clip if and only if it is in every extent intersected since the last reset and in the whole surface (with no reset, in the clip there was before); size and matrix stay |
| AnalysisSurface.OwnWithoutMatrix | cairo-1.8.8/src/cairo-analysis-surface.c:152-263 | without a matrix a drawing is recorded if and only if some pixel of its extents is in the clip, and then covers exactly those pixels, with their box |
| AnalysisSurface.OwnWithMatrix | cairo-1.8.8/src/cairo-analysis-surface.c:152-200 | with a matrix its box is the transformed box of those pixels, and it covers the least rectangle around that; none is recorded for no pixels or a box without an inside |
| AnalysisSurface.TracedByDraw | cairo-1.8.8/src/cairo-analysis-surface.c:322-436 | what a drawing records is its own operation last, native where its patterns are recordings, and else what the recordings among its patterns do, each in the frame nested in the drawing's |
| AnalysisSurface.TracedByContent | cairo-1.8.8/src/cairo-analysis-surface.c:97-150 | an operation is recorded for commands if and only if it is for one of their drawings, in the frame that the commands before it leave |
| AnalysisSurface.TracedInOrder | cairo-1.8.8/src/cairo-meta-surface.c:752-973 | replaying commands after others records what they do in the frame the others leave, after what the others do |
| AnalysisSurface.PatternsInOrder | cairo-1.8.8/src/cairo-analysis-surface.c:352-436 | the recordings among several patterns are recorded in the order of the patterns |
| AnalysisSurface.NothingVisibleAfterReset | cairo-1.8.8/src/cairo-analysis-surface.c:264-289 | on a surface of size -1 by -1 everything in the fixed-point range is visible at first, and nothing is once the clip has been reset; a reset clip shows something only for a positive size |
| AnalysisSurface.Surface.constructor | cairo-1.8.8/src/cairo-analysis-surface.c:765-817 | an analysis starts empty, with the whole surface as clip, or all of the fixed-point range for a size of -1 by -1 |
| AnalysisSurface.Surface.AddOperation | cairo-1.8.8/src/cairo-analysis-surface.c:152-263 | records the operation on the page if it is visible there, and answers as specified; an invisible one is only refused when the backend cannot do it |
| AnalysisSurface.Surface.AnalyzeMetaSurfacePattern | cairo-1.8.8/src/cairo-analysis-surface.c:97-150 | records exactly the operations of the recording in its own frame, and puts size, clip and matrix back |
| AnalysisSurface.Surface.Replay | cairo-1.8.8/src/cairo-meta-surface.c:752-973 | a replay records the operations of all its commands, in order |
| AnalysisSurface.Surface.Execute | cairo-1.8.8/src/cairo-analysis-surface.c:278-311 | clip commands change the clip alone, as AnalysisSurface.ClipExactly says pixel by pixel |
| AnalysisSurface.Surface.Paint | cairo-1.8.8/src/cairo-analysis-surface.c:322-436 | a drawing records the operations of its patterns, then its own, clipped; AnalysisSurface.TracedByDraw says which these are |
| CairoArray.CapacityIsLeastPower | cairo-1.8.8/src/cairo-array.c:114-137 | growing gives the least power of two that is enough, without overflowing 32 bits |
| CairoArray.AppendsAreCheap | cairo-1.8.8/src/cairo-array.c:114-159 | any run of appends moves fewer elements than twice what it appends |
| CairoArray.CairoArray.GrowBy | cairo-1.8.8/src/cairo-array.c:114-159 | fails exactly on overflow or lack of memory, and keeps all elements and snapshots |
| CairoArray.CairoArray.Allocate | cairo-1.8.8/src/cairo-array.c:303-323 | adds room at the end and keeps what is there; for no elements on an array without storage the source follows a null pointer, which is told apart |
| CairoArray.CairoArray.AppendMultiple | cairo-1.8.8/src/cairo-array.c:271-288 | contents grow by the items, or stay on failure and where the source follows a null pointer; every snapshot ever taken shows the items exactly where it reaches past the end of the array, and is otherwise unchanged |
| CairoArray.CairoArray.Append | cairo-1.8.8/src/cairo-array.c:250-257 | the same for one item |
| CairoArray.CairoArray.Truncate | cairo-1.8.8/src/cairo-array.c:169-176 | forgets the elements from the count on; no snapshot changes |
| CairoArray.CairoArray.Snapshot | cairo-1.8.8/src/cairo-array.c:74-84 | a snapshot has the size and shows the contents of the array |
| CairoArray.CairoArray.Index | cairo-1.8.8/src/cairo-array.c:200-220 | the element at a position, none for position 0 of an empty array |
| CairoArray.NotCutIsKept | cairo-1.8.8/src/cairo-array.c:65-84 | through any history of appends and truncations, none below its count, a snapshot shows what it showed |
| CairoArray.KeptExactly | cairo-1.8.8/src/cairo-array.c:65-84 | a snapshot shows what it showed after any append at any time of a history if and only if no truncation in it went below the snapshot's count |
| CairoArray.TruncateAndAppend | cairo-1.8.8/src/cairo-array.c:169-288 | for any array, any of its snapshots and any lesser count: truncating to it and appending leaves the snapshot with the new item at that place and all else as before |
| UserData.StoringRefinesMap | cairo-1.8.8/src/cairo-array.c:457-489 | storing in the slot found is setting in a finite map, one slot a key |
| UserData.GetReturnsLastSet | cairo-1.8.8/src/cairo-array.c:410-429 | after any run of sets the map holds the data last set |
| UserData.UserDataArray.GetData | cairo-1.8.8/src/cairo-array.c:410-429 | returns the data last set for the key, NULL before any or after removal |
| UserData.UserDataArray.FindSlot | cairo-1.8.8/src/cairo-array.c:467-480 | finds the key's slot, else the last free one; calls the destroy function of what the key's slot holds on its data |
| UserData.UserDataArray.SetData | cairo-1.8.8/src/cairo-array.c:447-492 | sets as in a map, reuses free slots, and calls the destroy function of a replaced datum on that datum exactly once |
| UserData.UserDataArray.Fini | cairo-1.8.8/src/cairo-array.c:382-396 | afterwards every destroy function ever attached with data has been called on that data exactly once, and none on anything else |
| PerfReport.CompareIsOrder | cairo-1.8.8/perf/cairo-perf-report.c:303-338 | the comparison is zero exactly on equal keys, and antisymmetric |
| PerfReport.CompareIsLex | cairo-1.8.8/perf/cairo-perf-report.c:303-338 | the sign of the comparison is the lexicographic order of backend, content, name (a NULL name last) and size, the lesser first; of strings one comes first that is a proper prefix or has the lesser character at the first difference |
| PerfReport.CompareTransitive | cairo-1.8.8/perf/cairo-perf-report.c:303-338 | it is transitive |
| PerfReport.NullNameIsLastInItsPlace | cairo-1.8.8/perf/cairo-perf-report.c:303-338 | a NULL name compares after a name if and only if backend and content do not put it before |
| PerfReport.NullNameFirst | cairo-1.8.8/perf/cairo-perf-report.c:303-338 | a concrete NULL name that compares before a name; no caller passes one, as sorting covers the tests before the NULL name that ends a report |
| PerfReport.SortTestsSorts | cairo-1.8.8/perf/cairo-perf-report.c:345-348 | sorting orders the tests and loses none |
| PerfReport.Gather | cairo-1.8.8/perf/cairo-perf-report.c:363-377 | the first test of a group gets the samples of all |
| PerfReport.Condense | cairo-1.8.8/perf/cairo-perf-report.c:353-382 | for any sorted raw tests, the first test of each key stands for all of its key and the others are untouched |
| PerfReport.SortAndComputeStats | cairo-1.8.8/perf/cairo-perf-report.c:340-383 | sorts and condenses a raw report |
| PerfReport.OneEntryPerKey | cairo-1.8.8/perf/cairo-perf-report.c:350-383 | exactly one entry per key has iterations, and its samples are a permutation of all samples of the key |
| PerfReport.CondensedRises | cairo-1.8.8/perf/cairo-perf-diff-files.c:224-234 | what the skipping of condensed tests leaves rises strictly |
| PerfReport.MergeIsJoin | cairo-1.8.8/perf/cairo-perf-diff-files.c:223-303 | merging two rising lists pairs exactly the common keys, once each, in rising order |
| PerfReport.CompareReports | cairo-1.8.8/perf/cairo-perf-diff-files.c:223-303 | the loop over two reports computes that merge |
| PerfReport.ComparedIsCommon | cairo-1.8.8/perf/cairo-perf-diff-files.c:223-303 | comparing two condensed reports records exactly their common keys |
| Stats.SortTicksSorts | cairo-1.8.8/perf/cairo-stats.c:28-62 | sorting orders the samples and loses none |
| Stats.FencesAreExact | cairo-1.8.8/perf/cairo-stats.c:61-70 | a sample is within the fences if and only if it lies at most one and a half interquartile ranges outside the quartiles, which are the samples a quarter and three quarters into the sorted ones |
| Stats.DescribedExactly | cairo-1.8.8/perf/cairo-stats.c:61-92 | what is reported is the number of samples within those fences, their least and their middle one |
| Stats.KeptRunIsMajority | cairo-1.8.8/perf/cairo-stats.c:61-82 | the samples within the fences hold both quartiles and more than half of all, the least first |
| Stats.KeptRunIsUnique | cairo-1.8.8/perf/cairo-stats.c:72-79 | there is one run of samples within the fences |
| Stats.Trim | cairo-1.8.8/perf/cairo-stats.c:64-79 | the two loops find exactly the samples within the fences, contiguous in sorted order; Stats.FencesAreExact says where the fences are |
| Stats.Compute | cairo-1.8.8/perf/cairo-stats.c:41-92 | count, least and median are those of the kept samples, and the least is their minimum |
| Atomic.Linearizable | cairo-1.8.8/src/cairo-atomic.c:39-74 | in every interleaving the memory and all results are those of doing the operations one at a time |
| Atomic.NeverStuck | cairo-1.8.8/src/cairo-atomic.c:39-74 | a thread in the middle of an operation never blocks all others |
| Atomic.CounterIsConserved | cairo-1.8.8/src/cairo-atomic.c:40-58 | a counter is its initial value plus increments minus decrements |
| Atomic.LastReferenceAnswersTrue | cairo-1.8.8/src/cairo-atomic.c:48-58 | used only while positive, the count answers TRUE exactly when the references balance, once, to the last operation |
| Atomic.FirstErrorIsKept | cairo-1.8.8/src/cairo-atomic-private.h:95-100 | however threads race, the status is the first error set, and never changes again |
| Atomic.Cell.Increment | cairo-1.8.8/src/cairo-atomic.c:40-46 | adds one, in place and as the step of the interleaving model does |
| Atomic.Cell.DecrementAndTest | cairo-1.8.8/src/cairo-atomic.c:48-58 | subtracts one and tells whether that reached zero, in place and as the step does |
| Atomic.Cell.CompareAndExchange | cairo-1.8.8/src/cairo-atomic.c:60-72 | stores the new value if and only if the old one matches, and answers the old one either way, as the step does |

## Left out

- Scanline.SweepFillsScanline: assumes crossings at integer points: a rounded one moves off the edges, and what is drawn then is not spoken of; neither are rows with an event or a crossing, and points on an edge.
- Sweep.CrossingBeforeStops: orders events exactly; MachineOrder.CrossingBeforeStopsExactly says when the code's 32-bit differences do.
- Sweep.StepKeepsInv: takes events in exact order; MachineSafety.StepKeepsSafeExactly is about the machine's.
- Sweep.ReachableInv: is about runs in exact order; MachineSafety.MachineRunIsSafeExactly is about the machine's.
- Sweep.NeverStuck: takes events in exact order; in the machine's a safe state is never stuck (MachineSafety.SafeIsNotStuck), and LateCrossing.CrossingOutlivesItsEdge reaches one that is.
- Tessellator.BoEventQueue.Dequeue: compares events exactly; its contract says when the code takes the same event.
- Tessellator.Tessellate: runs in exact order; what the code does after an event out of order, on pointers of edges no longer on the list, is not modelled.
- Trapezoids.LazyRefinesEager: assumes that event rows never fall, because rounding can make them (`Rounding.RowsCanFall`); RowsFall.RowsNeverFallExactly says when they do not, and with integer crossings `Scanline.RowsRise` proves it. It also takes coordinates from 0 on, as the clamp gives them.
- Coalescing.StripsAreApart: assumes that rows never fall, for the same reason.
- Coalescing.StripsAreStretches: likewise, with coordinates from 0 on.
- Intersect.MeetsIffInside: is about crossings at non-negative ordinates; Intersect.MeetsIffSeenInside is about all.
- Geometry.CompareEdgesIsLex: assumes the middle on its edge, at or above the row; Geometry.CompareEdgesIsLexExactly does not.
- ActiveList.SweepLine.FindPlace: walks the bottom chain of the skip list; the upper levels are in SkipList.FindLinks, on positions and not on the heap.
- ActiveList.SweepLine.Chain: links the bottom chain; the upper levels are in SkipList.InsertKeepsLevels. The back links of elements are not modelled.
- The free list of the skip list, and the distribution of its random heights, which are arbitrary here. The event queue's skip list is a sorted sequence.
- Allocation failure in the tessellator, with the unwinding after it.
- DeferredTraps.BoTraps.Add: appends; the clipping of trapezoids to limits and the checks of `_cairo_traps_add_trap` are not part of this model.
- The 96-by-64-bit division is modelled by its quotient and remainder, with its report that the quotient does not fit, and not step by step.
- Debug printing and the code disabled by `#if 0`.
- Base85: the status of the output stream, and failure to allocate the stream.
- AnalysisSurface: errors of extents, patterns and regions; how extents of sources, masks, strokes, fills and glyphs come about (a drawing's extents are given); the overflow of 24.8 fixed point.
- AnalysisSurface.Surface.AnalyzeMetaSurfacePattern: the transformed bounding box is a parameter of the surface that keeps boxes proper, because its floating-point arithmetic is not modelled; the inverse of the pattern's matrix is given.
- AnalysisSurface.Surface.Replay: the commands of a recording come with the extents and answers they will meet; the replay's own clipping of commands is part of these.
- AnalysisSurface.Surface.Execute: the extent of a clip path is given.
- AnalysisSurface.Surface.Paint: the extents of the operation and the backend's answer are given; strokes, fills and glyphs differ from it only in how their extents come about.
- CairoArray: an array that is finished while snapshots of it remain; element sizes in bytes.
- UserData: destroy functions that call back into the array; NULL keys.
- PerfReport: the capacity of sample buffers, change ratios and printing; reports with condensed and raw results mixed; three or more reports.
- Stats.Compute: mean and standard deviation, and the rounding of the fences to floating point.
- Atomic: the wrap-around of a 32-bit counter; the variants built on compiler primitives.
