// What a page analysis records: the regions drawn natively and as fallback images,
// and the bounds of the page (cairo-analysis-surface.c, lines 44-436).
module AnalysisSurface {
  import opened Arith

  datatype Status = Success | Unsupported | ImageFallback | AnalyzeMetaSurfacePattern | FlattenTransparency
                  | Failure(code: nat)

  // ---- _cairo_analysis_surface_merge_status ----

  predicate IsError(s: Status) {
    s.Failure?
  }

  function MergeStatus(a: Status, b: Status): (r: Status)
    requires !IsError(a) && !IsError(b)
    ensures !IsError(r)
  {
    if a == Unsupported || b == Unsupported then Unsupported
    else if a == ImageFallback || b == ImageFallback then ImageFallback
    else if a == AnalyzeMetaSurfacePattern || b == AnalyzeMetaSurfacePattern then AnalyzeMetaSurfacePattern
    else if a == FlattenTransparency || b == FlattenTransparency then FlattenTransparency
    else Success
  }

  // How much a status restricts what the backend may do natively.
  function Importance(s: Status): nat {
    match s
    case Success => 0
    case FlattenTransparency => 1
    case AnalyzeMetaSurfacePattern => 2
    case ImageFallback => 3
    case Unsupported => 4
    case Failure(_) => 5
  }

  // Merging takes the more important of the two, so the order of merging is free.
  lemma MergeIsMaximum(a: Status, b: Status, c: Status)
    requires !IsError(a) && !IsError(b) && !IsError(c)
    ensures Importance(MergeStatus(a, b)) == if Importance(a) > Importance(b) then Importance(a) else Importance(b)
    ensures MergeStatus(a, b) == MergeStatus(b, a) && MergeStatus(a, b) in {a, b}
    ensures MergeStatus(MergeStatus(a, b), c) == MergeStatus(a, MergeStatus(b, c))
  {
  }

  // ---- Rectangles and boxes ----

  // cairo_rectangle_int_t. The clip of a surface without a size can have a negative extent.
  datatype Rect = Rect(x: int, y: int, width: int, height: int)

  // cairo_box_t, in fixed point with 8 fraction bits
  datatype Box = Box(x1: int, y1: int, x2: int, y2: int)

  type Cell = (int, int)
  type Region = set<Cell>

  const ONE: int := 256

  const RECT_INT_MIN: int := -0x80_0000
  const RECT_INT_MAX: int := 0x7F_FFFF

  function Cells(r: Rect): Region {
    set x, y | r.x <= x < r.x + r.width && r.y <= y < r.y + r.height :: (x, y)
  }

  predicate Visible(r: Rect) {
    r.width > 0 && r.height > 0
  }

  function Max(a: int, b: int): int { if a < b then b else a }

  // _cairo_rectangle_intersect
  function Intersect(a: Rect, b: Rect): (r: Rect)
    ensures Cells(r) == Cells(a) * Cells(b) && r.width >= 0 && r.height >= 0
  {
    var x1, y1 := Max(a.x, b.x), Max(a.y, b.y);
    var x2, y2 := Min(a.x + a.width, b.x + b.width), Min(a.y + a.height, b.y + b.height);
    if x1 >= x2 || y1 >= y2 then Rect(0, 0, 0, 0) else Rect(x1, y1, x2 - x1, y2 - y1)
  }

  // _cairo_box_from_rectangle
  function BoxOf(r: Rect): Box {
    Box(r.x * ONE, r.y * ONE, (r.x + r.width) * ONE, (r.y + r.height) * ONE)
  }

  function CellBox(c: Cell): Box {
    Box(c.0 * ONE, c.1 * ONE, (c.0 + 1) * ONE, (c.1 + 1) * ONE)
  }

  // The box of a rectangle holds exactly the boxes of its cells.
  lemma BoxHoldsCells(r: Rect, c: Cell)
    ensures c in Cells(r) <==> InBox(CellBox(c), BoxOf(r))
  {
  }

  predicate Proper(b: Box) {
    b.x1 <= b.x2 && b.y1 <= b.y2
  }

  // _cairo_fixed_integer_floor and _cairo_fixed_integer_ceil, with C's shifts of
  // non-negative numbers
  function IntegerFloor(f: int): int {
    if f >= 0 then f / ONE else -((-f - 1) / ONE) - 1
  }

  function IntegerCeil(f: int): int {
    if f > 0 then (f - 1) / ONE + 1 else -(-f / ONE)
  }

  // _cairo_box_round_to_rectangle
  function RoundOut(b: Box): (r: Rect)
    requires Proper(b)
  {
    var x, y := IntegerFloor(b.x1), IntegerFloor(b.y1);
    RoundingBounds(b.x1);
    RoundingBounds(b.x2);
    RoundingBounds(b.y1);
    RoundingBounds(b.y2);
    Rect(x, y, IntegerCeil(b.x2) - x, IntegerCeil(b.y2) - y)
  }

  lemma RoundingBounds(f: int)
    ensures IntegerFloor(f) * ONE <= f < (IntegerFloor(f) + 1) * ONE
    ensures (IntegerCeil(f) - 1) * ONE < f <= IntegerCeil(f) * ONE
  {
  }

  predicate InBox(b: Box, c: Box) {
    c.x1 <= b.x1 && c.y1 <= b.y1 && b.x2 <= c.x2 && b.y2 <= c.y2
  }

  // The rounded rectangle is the least one around the box, and is visible when the
  // box has an inside.
  lemma RoundOutIsLeast(b: Box, r: Rect)
    requires Proper(b)
    ensures InBox(b, BoxOf(RoundOut(b)))
    ensures InBox(b, BoxOf(r)) ==> InBox(BoxOf(RoundOut(b)), BoxOf(r))
    ensures b.x1 < b.x2 && b.y1 < b.y2 ==> Visible(RoundOut(b))
  {
    RoundingBounds(b.x1);
    RoundingBounds(b.x2);
    RoundingBounds(b.y1);
    RoundingBounds(b.y2);
    hide IntegerFloor, IntegerCeil;
    var q := RoundOut(b);
    assert q.x * ONE <= b.x1 < (q.x + 1) * ONE && q.y * ONE <= b.y1 < (q.y + 1) * ONE;
    assert (q.x + q.width - 1) * ONE < b.x2 <= (q.x + q.width) * ONE;
    assert (q.y + q.height - 1) * ONE < b.y2 <= (q.y + q.height) * ONE;
  }

  // ---- The account kept of visible operations ----

  // A visible operation: its cells and exact bounds on the page, and the backend's answer.
  datatype Op = Op(rect: Rect, box: Box, reply: Status)

  datatype Account = Account(firstOp: bool, hasSupported: bool, hasUnsupported: bool,
                             supported: Region, fallback: Region, page: Box)

  const EMPTY: Account := Account(true, false, false, {}, {}, Box(0, 0, 0, 0))

  function Grown(page: Box, b: Box): Box {
    Box(Min(page.x1, b.x1), Min(page.y1, b.y1), Max(page.x2, b.x2), Max(page.y2, b.y2))
  }

  // What _add_operation answers for a visible operation.
  function Answer(a: Account, op: Op): Status {
    if Cells(op.rect) <= a.fallback then ImageFallback
    else if op.reply == Success || (op.reply == FlattenTransparency && Cells(op.rect) !! a.supported) then Success
    else ImageFallback
  }

  function Added(a: Account, op: Op): Account {
    var page := if a.firstOp then op.box else Grown(a.page, op.box);
    var b := a.(firstOp := false, page := page);
    if Cells(op.rect) <= a.fallback then b
    else if Answer(a, op) == Success then b.(hasSupported := true, supported := a.supported + Cells(op.rect))
    else b.(hasUnsupported := true, fallback := a.fallback + Cells(op.rect))
  }

  function Run(ops: seq<Op>): Account {
    if ops == [] then EMPTY else Added(Run(ops[..|ops| - 1]), ops[|ops| - 1])
  }

  function AnswerAt(ops: seq<Op>, i: nat): Status
    requires i < |ops|
  {
    Answer(Run(ops[..i]), ops[i])
  }

  predicate AllVisible(ops: seq<Op>) {
    forall i :: 0 <= i < |ops| ==> Visible(ops[i].rect)
  }

  // Some operation answered so covers the cell.
  ghost predicate Drawn(ops: seq<Op>, answer: Status, c: Cell) {
    exists i: nat :: i < |ops| && AnswerAt(ops, i) == answer && c in Cells(ops[i].rect)
  }

  lemma DrawnStep(ops: seq<Op>, answer: Status, c: Cell)
    requires ops != []
    ensures var n := |ops| - 1;
      Drawn(ops, answer, c) <==> Drawn(ops[..n], answer, c) || (AnswerAt(ops, n) == answer && c in Cells(ops[n].rect))
  {
    hide Answer, Run, Cells;
    var n := |ops| - 1;
    var before := ops[..n];
    forall i: nat | i < n ensures AnswerAt(before, i) == AnswerAt(ops, i) && before[i] == ops[i] {
      assert before[..i] == ops[..i];
    }
    if Drawn(before, answer, c) {
      var i: nat :| i < n && AnswerAt(before, i) == answer && c in Cells(before[i].rect);
      assert AnswerAt(ops, i) == answer;
    }
  }

  // Over any run the two regions are the unions of the rectangles answered so, and
  // the flags say whether anything was.
  lemma {:induction false} RegionsAreUnions(ops: seq<Op>)
    requires AllVisible(ops)
    ensures forall c :: c in Run(ops).fallback <==> Drawn(ops, ImageFallback, c)
    ensures forall c :: c in Run(ops).supported <==> Drawn(ops, Success, c)
    ensures Run(ops).hasSupported <==> Run(ops).supported != {}
    ensures Run(ops).hasUnsupported <==> Run(ops).fallback != {}
    ensures Run(ops).firstOp <==> ops == []
  {
    hide Drawn, Cells;
    if ops == [] {
      NothingDrawn();
    } else {
      var n := |ops| - 1;
      var op := ops[n];
      RegionsAreUnions(ops[..n]);
      forall c, s
        ensures Drawn(ops, s, c) <==> Drawn(ops[..n], s, c) || (AnswerAt(ops, n) == s && c in Cells(op.rect))
      {
        DrawnStep(ops, s, c);
      }
      assert (op.rect.x, op.rect.y) in Cells(op.rect) by { CornerCell(op.rect); }
    }
  }

  lemma NothingDrawn()
    ensures forall s, c :: !Drawn([], s, c)
  {
  }

  lemma CornerCell(r: Rect)
    requires Visible(r)
    ensures (r.x, r.y) in Cells(r)
  {
  }

  // The page box is the least box around all visible operations.
  lemma {:induction false} PageIsLeast(ops: seq<Op>, b: Box)
    requires ops != []
    ensures forall i :: 0 <= i < |ops| ==> InBox(ops[i].box, Run(ops).page)
    ensures (forall i :: 0 <= i < |ops| ==> InBox(ops[i].box, b)) ==> InBox(Run(ops).page, b)
    ensures !Run(ops).firstOp
  {
    hide Cells;
    var n := |ops| - 1;
    if n > 0 {
      PageIsLeast(ops[..n], b);
      assert forall i :: 0 <= i < n ==> ops[i] == ops[..n][i];
    }
  }

  lemma {:induction false} RegionsGrow(ops: seq<Op>, i: nat)
    requires i <= |ops|
    ensures Run(ops[..i]).supported <= Run(ops).supported && Run(ops[..i]).fallback <= Run(ops).fallback
    decreases |ops|
  {
    hide Cells;
    if i < |ops| {
      var n := |ops| - 1;
      RegionsGrow(ops[..n], i);
      assert ops[..n][..i] == ops[..i];
    } else {
      assert ops[..i] == ops;
    }
  }

  // Nothing visible is lost: every cell of every operation ends in one of the regions.
  lemma NothingIsLost(ops: seq<Op>, i: nat)
    requires i < |ops|
    ensures Cells(ops[i].rect) <= Run(ops).supported + Run(ops).fallback
  {
    hide Cells;
    RegionsGrow(ops, i + 1);
    assert ops[..i + 1][..i] == ops[..i];
  }

  // When an operation is native: not where a fallback image will cover it anyway, and
  // with transparency to flatten only clear of everything native before it.
  lemma AnsweredNatively(ops: seq<Op>, i: nat)
    requires i < |ops| && AllVisible(ops)
    ensures AnswerAt(ops, i) == Success <==>
      && (exists c :: c in Cells(ops[i].rect) && !Drawn(ops[..i], ImageFallback, c))
      && (ops[i].reply == Success ||
          (ops[i].reply == FlattenTransparency && forall c :: c in Cells(ops[i].rect) ==> !Drawn(ops[..i], Success, c)))
    ensures AnswerAt(ops, i) in {Success, ImageFallback}
  {
    hide Drawn, Cells;
    RegionsAreUnions(ops[..i]);
  }

  // ---- The surface ----

  // cairo_matrix_t
  datatype Matrix = Matrix(xx: real, yx: real, xy: real, yy: real, x0: real, y0: real)

  const IDENTITY: Matrix := Matrix(1.0, 0.0, 0.0, 1.0, 0.0, 0.0)

  function Multiply(a: Matrix, b: Matrix): Matrix {
    Matrix(a.xx * b.xx + a.yx * b.xy, a.xx * b.yx + a.yx * b.yy,
           a.xy * b.xx + a.yy * b.xy, a.xy * b.yx + a.yy * b.yy,
           a.x0 * b.xx + a.y0 * b.xy + b.x0, a.x0 * b.yx + a.y0 * b.yy + b.y0)
  }

  function TransformX(m: Matrix, x: real, y: real): real { m.xx * x + m.xy * y + m.x0 }
  function TransformY(m: Matrix, x: real, y: real): real { m.yx * x + m.yy * y + m.y0 }

  // What is drawn on the surface. The extents are those before clipping; the target
  // answers with a status or asks for the patterns that are recordings.
  datatype Command =
    | ResetClip
    | IntersectClip(extent: Rect)
    | Draw(extents: Rect, reply: Reply)

  datatype Reply = Plain(status: Status) | Patterns(patterns: seq<Recording>)

  // A recorded surface as a pattern: its size, the pattern's inverse matrix, its commands.
  datatype Recording = Recording(width: nat, height: nat, p2d: Matrix, content: seq<Command>)

  // The part of the state that a recording's analysis changes and puts back.
  datatype Frame = Frame(width: int, height: int, clip: Rect, hasCtm: bool, ctm: Matrix)

  type Bounds = (Matrix, Box) -> Box   // _cairo_matrix_transform_bounding_box_fixed

  ghost predicate ProperBounds(bounds: Bounds) {
    forall m, b :: Proper(b) ==> Proper(bounds(m, b))
  }

  function WholeClip(f: Frame): Frame {
    f.(clip := Rect(0, 0, f.width, f.height))
  }

  // The frame of a new surface: a size of -1 by -1 stands for one without bounds.
  function FirstFrame(width: int, height: int): Frame {
    var extent := RECT_INT_MAX - RECT_INT_MIN;
    var clip := if width == -1 && height == -1 then Rect(RECT_INT_MIN, RECT_INT_MIN, extent, extent)
                else Rect(0, 0, width, height);
    Frame(width, height, clip, false, IDENTITY)
  }

  // The bounds that a surface without a size lacks are not restored with its clip: once
  // the clip is reset, nothing drawn on it is visible.
  lemma NothingVisibleAfterReset(bounds: Bounds, width: int, height: int, extents: Rect, reply: Status)
    requires ProperBounds(bounds)
    ensures var f := FirstFrame(width, height);
      && (Visible(extents) && BoxInGrid(extents) && width == -1 && height == -1 ==>
            TraceDraw(bounds, f, extents, Plain(reply)) == [Op(extents, BoxOf(extents), reply)])
      && (TraceDraw(bounds, ClipAfter(f, ResetClip), extents, Plain(reply)) != [] ==> width > 0 && height > 0)
  {
  }

  // The rectangle lies within what 24.8 fixed point can express.
  predicate BoxInGrid(r: Rect) {
    && -0x8000_0000 <= r.x * ONE && (r.x + r.width) * ONE <= 0x7FFF_FFFF
    && -0x8000_0000 <= r.y * ONE && (r.y + r.height) * ONE <= 0x7FFF_FFFF
  }

  // The frame a recording is analysed in.
  function Nested(f: Frame, p: Recording): Frame {
    var m := Multiply(p.p2d, f.ctm);
    WholeClip(Frame(p.width, p.height, f.clip, m != IDENTITY, m))
  }

  // A point of a recording reaches the page through its pattern and then through the
  // frame around it, and a frame without a matrix leaves points where they are.
  lemma NestedTransforms(f: Frame, p: Recording, x: real, y: real)
    ensures var m, x', y' := Nested(f, p).ctm, TransformX(p.p2d, x, y), TransformY(p.p2d, x, y);
      && TransformX(m, x, y) == TransformX(f.ctm, x', y')
      && TransformY(m, x, y) == TransformY(f.ctm, x', y')
      && (!Nested(f, p).hasCtm ==> TransformX(m, x, y) == x && TransformY(m, x, y) == y)
    ensures Cells(Nested(f, p).clip) == Cells(Rect(0, 0, p.width, p.height))
  {
    hide Cells;
  }

  // It is without one exactly when the matrix moves no point.
  lemma NestedMovesExactly(f: Frame, p: Recording)
    ensures !Nested(f, p).hasCtm <==> MovesNothing(Nested(f, p).ctm)
  {
    hide Multiply, MovesNothing;
    IdentityExactly(Nested(f, p).ctm);
  }

  ghost predicate MovesNothing(m: Matrix) {
    forall x: real, y: real {:trigger TransformX(m, x, y)} :: TransformX(m, x, y) == x && TransformY(m, x, y) == y
  }

  lemma IdentityExactly(m: Matrix)
    ensures m == IDENTITY <==> MovesNothing(m)
  {
    UnitPoints(m);
    if MovesNothing(m) {
      assert TransformX(m, 0.0, 0.0) == 0.0 && TransformX(m, 1.0, 0.0) == 1.0 && TransformX(m, 0.0, 1.0) == 0.0;
    }
    if m == IDENTITY {
      forall x: real, y: real ensures TransformX(m, x, y) == x && TransformY(m, x, y) == y {}
    }
  }

  lemma UnitPoints(m: Matrix)
    ensures TransformX(m, 0.0, 0.0) == m.x0 && TransformY(m, 0.0, 0.0) == m.y0
    ensures TransformX(m, 1.0, 0.0) == m.xx + m.x0 && TransformY(m, 1.0, 0.0) == m.yx + m.y0
    ensures TransformX(m, 0.0, 1.0) == m.xy + m.x0 && TransformY(m, 0.0, 1.0) == m.yy + m.y0
  {
  }

  // The operation on the page that a rectangle of the frame stands for, if any.
  ghost function OnPage(bounds: Bounds, f: Frame, rect: Rect, reply: Status): (r: seq<Op>)
    requires ProperBounds(bounds)
    ensures |r| <= 1 && AllVisible(r)
  {
    if !Visible(rect) then []
    else if !f.hasCtm then [Op(rect, BoxOf(rect), reply)]
    else
      var b := bounds(f.ctm, BoxOf(rect));
      if b.x1 == b.x2 || b.y1 == b.y2 then []
      else
        RoundOutIsLeast(b, rect);
        [Op(RoundOut(b), b, reply)]
  }

  function ClipAfter(f: Frame, c: Command): Frame {
    match c
    case ResetClip => WholeClip(f)
    case IntersectClip(extent) => f.(clip := Intersect(f.clip, extent))
    case Draw(_, _) => f
  }

  function FrameAfter(f: Frame, content: seq<Command>): Frame {
    if content == [] then f else ClipAfter(FrameAfter(f, content[..|content| - 1]), content[|content| - 1])
  }

  // The operations on the page that commands stand for, those of recordings in place.
  ghost function TraceContent(bounds: Bounds, f: Frame, content: seq<Command>): seq<Op>
    requires ProperBounds(bounds)
    decreases content
  {
    if content == [] then [] else
      var n := |content| - 1;
      TraceContent(bounds, f, content[..n]) + TraceCommand(bounds, FrameAfter(f, content[..n]), content[n])
  }

  ghost function TraceCommand(bounds: Bounds, f: Frame, c: Command): seq<Op>
    requires ProperBounds(bounds)
    decreases c
  {
    if c.Draw? then TraceDraw(bounds, f, c.extents, c.reply) else []
  }

  ghost function TraceDraw(bounds: Bounds, f: Frame, extents: Rect, reply: Reply): seq<Op>
    requires ProperBounds(bounds)
    decreases reply
  {
    match reply
    case Plain(s) => OnPage(bounds, f, Intersect(extents, f.clip), s)
    case Patterns(patterns) =>
      TracePatterns(bounds, f, patterns) + OnPage(bounds, f, Intersect(extents, f.clip), Success)
  }

  ghost function TracePatterns(bounds: Bounds, f: Frame, patterns: seq<Recording>): seq<Op>
    requires ProperBounds(bounds)
    decreases patterns
  {
    if patterns == [] then [] else
      var n := |patterns| - 1;
      TracePatterns(bounds, f, patterns[..n]) + TraceContent(bounds, Nested(f, patterns[n]), patterns[n].content)
  }

  // ---- What is clipped, cell by cell ----

  predicate Resets(content: seq<Command>, from: nat) {
    exists j :: from <= j < |content| && content[j].ResetClip?
  }

  // The cell is in all that the clip may be since it was last reset: the whole surface or,
  // with no reset, what it was; and every extent it was intersected with since.
  ghost predicate LeftByClip(f: Frame, content: seq<Command>, c: Cell) {
    && c in Cells(if Resets(content, 0) then Rect(0, 0, f.width, f.height) else f.clip)
    && forall i :: 0 <= i < |content| && content[i].IntersectClip? && !Resets(content, i) ==>
         c in Cells(content[i].extent)
  }

  lemma ResetsLater(before: seq<Command>, last: Command, from: nat)
    requires from <= |before|
    ensures Resets(before + [last], from) <==> Resets(before, from) || last.ResetClip?
  {
    var content := before + [last];
    assert content[|before|] == last;
    if Resets(before, from) {
      var j :| from <= j < |before| && before[j].ResetClip?;
      assert content[j].ResetClip?;
    }
  }

  lemma LeftByOneMore(f: Frame, before: seq<Command>, last: Command, c: Cell)
    ensures LeftByClip(f, before + [last], c) <==>
              match last
              case ResetClip => c in Cells(Rect(0, 0, f.width, f.height))
              case IntersectClip(extent) => LeftByClip(f, before, c) && c in Cells(extent)
              case Draw(_, _) => LeftByClip(f, before, c)
  {
    hide Cells, Resets;
    var content := before + [last];
    ResetsLater(before, last, 0);
    NoResetAtEnd(content);
    forall i | 0 <= i < |before| ensures Resets(content, i) <==> Resets(before, i) || last.ResetClip? {
      ResetsLater(before, last, i);
    }
    assert content[|before|] == last && forall i :: 0 <= i < |before| ==> content[i] == before[i];
  }

  lemma NoResetAtEnd(content: seq<Command>)
    requires content != []
    ensures Resets(content, |content| - 1) <==> content[|content| - 1].ResetClip?
  {
  }

  // The clip after any commands holds exactly those cells, and nothing else changes.
  lemma {:induction false} ClipExactly(f: Frame, content: seq<Command>, c: Cell)
    ensures c in Cells(FrameAfter(f, content).clip) <==> LeftByClip(f, content, c)
    ensures FrameAfter(f, content) == f.(clip := FrameAfter(f, content).clip)
  {
    hide Cells, Intersect, LeftByClip;
    if content == [] {
      NothingClipped(f, c);
    } else {
      var n := |content| - 1;
      ClipExactly(f, content[..n], c);
      assert content == content[..n] + [content[n]];
      LeftByOneMore(f, content[..n], content[n], c);
      if content[n].IntersectClip? { IntersectHolds(FrameAfter(f, content[..n]).clip, content[n].extent); }
    }
  }

  lemma NothingClipped(f: Frame, c: Cell)
    ensures LeftByClip(f, [], c) <==> c in Cells(f.clip)
  {
    hide Cells;
  }

  lemma IntersectHolds(a: Rect, b: Rect)
    ensures Cells(Intersect(a, b)) == Cells(a) * Cells(b)
  {
    hide Cells;
  }

  // ---- What reaches the page ----

  // A drawing stands for its own operation: none if no cell of its extents is left by the
  // clip. Without a matrix it covers those cells, within the box of them.
  lemma OwnWithoutMatrix(bounds: Bounds, f: Frame, extents: Rect, reply: Status)
    requires ProperBounds(bounds) && !f.hasCtm
    ensures var own := OnPage(bounds, f, Intersect(extents, f.clip), reply);
      && (own == [] <==> Cells(extents) * Cells(f.clip) == {})
      && (own != [] ==>
            && |own| == 1 && own[0].reply == reply && own[0].box == BoxOf(own[0].rect)
            && Cells(own[0].rect) == Cells(extents) * Cells(f.clip))
  {
    hide Cells;
    var r := Intersect(extents, f.clip);
    EmptyExactly(r);
    assert Cells(r) == Cells(extents) * Cells(f.clip);
  }

  lemma EmptyExactly(r: Rect)
    ensures Visible(r) <==> Cells(r) != {}
  {
    if Visible(r) { CornerCell(r); }
  }

  // With a matrix its box is what the matrix makes of the box of those cells, and it
  // covers the least rectangle around that.
  lemma OwnWithMatrix(bounds: Bounds, f: Frame, extents: Rect, reply: Status) returns (r: Rect)
    requires ProperBounds(bounds) && f.hasCtm
    ensures Cells(r) == Cells(extents) * Cells(f.clip)
    ensures var own, b := OnPage(bounds, f, Intersect(extents, f.clip), reply), bounds(f.ctm, BoxOf(r));
      && (own == [] <==> Cells(r) == {} || b.x1 == b.x2 || b.y1 == b.y2)
      && (own != [] ==>
            && |own| == 1 && own[0].reply == reply && own[0].box == b && InBox(b, BoxOf(own[0].rect))
            && forall q: Rect :: InBox(b, BoxOf(q)) ==> InBox(BoxOf(own[0].rect), BoxOf(q)))
  {
    hide Cells, RoundOut;
    r := Intersect(extents, f.clip);
    EmptyExactly(r);
    if Visible(r) {
      StaysProper(bounds, f.ctm, BoxOf(r));
      var b := bounds(f.ctm, BoxOf(r));
      forall q: Rect ensures InBox(b, BoxOf(q)) ==> InBox(BoxOf(RoundOut(b)), BoxOf(q)) { RoundOutIsLeast(b, q); }
      RoundOutIsLeast(b, r);
    }
  }

  // An operation comes from commands if and only if one of their drawings, in the frame
  // that the commands before it leave, stands for it.
  lemma {:induction false} TracedByContent(bounds: Bounds, f: Frame, content: seq<Command>, op: Op)
    requires ProperBounds(bounds)
    ensures op in TraceContent(bounds, f, content) <==>
              exists i :: 0 <= i < |content| && TracedBy(bounds, FrameAfter(f, content[..i]), content[i], op)
  {
    hide TraceDraw, FrameAfter;
    if content != [] {
      var n := |content| - 1;
      TracedByContent(bounds, f, content[..n], op);
      assert forall i :: 0 <= i <= n ==> content[..n][..i] == content[..i];
    }
  }

  ghost predicate TracedBy(bounds: Bounds, f: Frame, c: Command, op: Op)
    requires ProperBounds(bounds)
  {
    c.Draw? && op in TraceDraw(bounds, f, c.extents, c.reply)
  }

  // A drawing stands for its own operation, native where its patterns are recordings, and
  // before it for those of each recording in a frame nested in its own.
  lemma TracedByDraw(bounds: Bounds, f: Frame, extents: Rect, reply: Reply, op: Op)
    requires ProperBounds(bounds)
    ensures var status := if reply.Plain? then reply.status else Success;
      op in TraceDraw(bounds, f, extents, reply) <==>
        || op in OnPage(bounds, f, Intersect(extents, f.clip), status)
        || (reply.Patterns? && exists p :: p in reply.patterns && op in TraceContent(bounds, Nested(f, p), p.content))
    ensures var status := if reply.Plain? then reply.status else Success;
      var trace, own := TraceDraw(bounds, f, extents, reply), OnPage(bounds, f, Intersect(extents, f.clip), status);
      |own| <= |trace| && trace[|trace| - |own|..] == own
  {
    hide OnPage, TraceContent, Nested;
    if reply.Patterns? { TracedByPatterns(bounds, f, reply.patterns, op); }
  }

  lemma {:induction false} TracedByPatterns(bounds: Bounds, f: Frame, patterns: seq<Recording>, op: Op)
    requires ProperBounds(bounds)
    ensures op in TracePatterns(bounds, f, patterns) <==>
              exists p :: p in patterns && op in TraceContent(bounds, Nested(f, p), p.content)
  {
    hide TraceContent, Nested;
    if patterns != [] {
      var n := |patterns| - 1;
      TracedByPatterns(bounds, f, patterns[..n], op);
      assert patterns == patterns[..n] + [patterns[n]];
    }
  }

  // The recordings come in the order of the patterns.
  lemma {:induction false} PatternsInOrder(bounds: Bounds, f: Frame, a: seq<Recording>, b: seq<Recording>)
    requires ProperBounds(bounds)
    ensures TracePatterns(bounds, f, a + b) == TracePatterns(bounds, f, a) + TracePatterns(bounds, f, b)
    decreases |b|
  {
    hide TraceContent;
    if b == [] {
      assert a + b == a;
    } else {
      var n := |b| - 1;
      PatternsInOrder(bounds, f, a, b[..n]);
      var c := a + b;
      assert c[..|c| - 1] == a + b[..n] && c[|c| - 1] == b[n];
    }
  }

  // The operations come in the order of the commands.
  lemma {:induction false} TracedInOrder(bounds: Bounds, f: Frame, a: seq<Command>, b: seq<Command>)
    requires ProperBounds(bounds)
    ensures FrameAfter(f, a + b) == FrameAfter(FrameAfter(f, a), b)
    ensures TraceContent(bounds, f, a + b) == TraceContent(bounds, f, a) + TraceContent(bounds, FrameAfter(f, a), b)
    decreases |b|
  {
    hide TraceDraw, ClipAfter;
    if b == [] {
      assert a + b == a;
    } else {
      var n := |b| - 1;
      TracedInOrder(bounds, f, a, b[..n]);
      var c := a + b;
      assert c[..|c| - 1] == a + b[..n] && c[|c| - 1] == b[n];
    }
  }

  lemma RunAppend(ops: seq<Op>, op: Op)
    ensures Run(ops + [op]) == Added(Run(ops), op) && AnswerAt(ops + [op], |ops|) == Answer(Run(ops), op)
  {
    assert (ops + [op])[..|ops|] == ops;
  }

  // cairo_analysis_surface_t
  class Surface {
    const bounds: Bounds
    var width: int
    var height: int
    var firstOp: bool
    var hasSupported: bool
    var hasUnsupported: bool
    var supportedRegion: Region
    var fallbackRegion: Region
    var currentClip: Rect
    var pageBbox: Box
    var hasCtm: bool
    var ctm: Matrix
    ghost var ops: seq<Op>               // the visible operations so far

    function Books(): Account
      reads this
    {
      Account(firstOp, hasSupported, hasUnsupported, supportedRegion, fallbackRegion, pageBbox)
    }

    function Framed(): Frame
      reads this
    {
      Frame(width, height, currentClip, hasCtm, ctm)
    }

    ghost predicate Valid()
      reads this
    {
      ProperBounds(bounds) && AllVisible(ops) && Books() == Run(ops)
    }

    // _cairo_analysis_surface_create
    constructor (bounds: Bounds, width: int, height: int)
      requires ProperBounds(bounds)
      ensures Valid() && ops == [] && this.bounds == bounds
      ensures Framed() == FirstFrame(width, height)
    {
      this.bounds, this.width, this.height := bounds, width, height;
      ctm, hasCtm := IDENTITY, false;
      if width == -1 && height == -1 {
        var extent := RECT_INT_MAX - RECT_INT_MIN;
        currentClip := Rect(RECT_INT_MIN, RECT_INT_MIN, extent, extent);
      } else {
        currentClip := Rect(0, 0, width, height);
      }
      firstOp, hasSupported, hasUnsupported := true, false, false;
      pageBbox, supportedRegion, fallbackRegion := Box(0, 0, 0, 0), {}, {};
      ops := [];
    }

    // _add_operation
    method AddOperation(rect: Rect, backendStatus: Status) returns (status: Status)
      requires Valid() && rect.width >= 0 && rect.height >= 0
      modifies this
      ensures Valid() && Framed() == old(Framed())
      ensures ops == old(ops) + OnPage(bounds, old(Framed()), rect, backendStatus)
      ensures status == if ops != old(ops) then AnswerAt(ops, |old(ops)|)
                        else if backendStatus in {Success, FlattenTransparency} then Success else ImageFallback
    {
      hide Cells, Run, AnswerAt, RoundOut, ProperBounds;
      if rect.width == 0 || rect.height == 0 {
        return if backendStatus == Success || backendStatus == FlattenTransparency then Success else ImageFallback;
      }
      var bbox, area := BoxOf(rect), rect;
      if hasCtm {
        assert Proper(bounds(ctm, bbox)) by { StaysProper(bounds, ctm, bbox); }
        bbox := bounds(ctm, bbox);
        if bbox.x1 == bbox.x2 || bbox.y1 == bbox.y2 {
          return if backendStatus == Success || backendStatus == FlattenTransparency then Success else ImageFallback;
        }
        RoundOutIsLeast(bbox, area);
        area := RoundOut(bbox);
      }
      status := Record(area, bbox, backendStatus);
    }

    method GrowPage(bbox: Box)
      modifies `firstOp, `pageBbox
      ensures !firstOp && pageBbox == if old(firstOp) then bbox else Grown(old(pageBbox), bbox)
    {
      if firstOp {
        firstOp := false;
        pageBbox := bbox;
      } else {
        if bbox.x1 < pageBbox.x1 { pageBbox := pageBbox.(x1 := bbox.x1); }
        if bbox.y1 < pageBbox.y1 { pageBbox := pageBbox.(y1 := bbox.y1); }
        if bbox.x2 > pageBbox.x2 { pageBbox := pageBbox.(x2 := bbox.x2); }
        if bbox.y2 > pageBbox.y2 { pageBbox := pageBbox.(y2 := bbox.y2); }
      }
    }

    // The rest of _add_operation, for a visible operation.
    method Record(rect: Rect, bbox: Box, backendStatus: Status) returns (status: Status)
      requires Valid() && Visible(rect)
      modifies this
      ensures Valid() && Framed() == old(Framed())
      ensures ops == old(ops) + [Op(rect, bbox, backendStatus)] && status == AnswerAt(ops, |old(ops)|)
    {
      hide Cells, Run, AnswerAt, Grown, ProperBounds;
      RunAppend(ops, Op(rect, bbox, backendStatus));
      ops := ops + [Op(rect, bbox, backendStatus)];
      GrowPage(bbox);
      if Cells(rect) <= fallbackRegion { return ImageFallback; }
      var answer := backendStatus;
      if answer == FlattenTransparency && Cells(rect) !! supportedRegion { answer := Success; }
      if answer == Success {
        hasSupported := true;
        supportedRegion := supportedRegion + Cells(rect);
        return Success;
      }
      hasUnsupported := true;
      fallbackRegion := fallbackRegion + Cells(rect);
      return ImageFallback;
    }

    // _analyze_meta_surface_pattern: the recording's operations are accounted like all
    // others, in its own frame, and the surface's frame is put back.
    method AnalyzeMetaSurfacePattern(pattern: Recording) returns (status: Status)
      requires Valid()
      modifies this
      ensures Valid() && Framed() == old(Framed()) && status == Success
      ensures ops == old(ops) + TraceContent(bounds, Nested(old(Framed()), pattern), pattern.content)
      decreases pattern
    {
      hide Multiply, Run, TraceContent, ProperBounds, AllVisible;
      var oldWidth, oldHeight, oldClip := width, height, currentClip;
      width, height := pattern.width, pattern.height;
      currentClip := Rect(0, 0, width, height);
      var oldCtm, oldHasCtm := ctm, hasCtm;
      ctm := Multiply(pattern.p2d, ctm);
      hasCtm := ctm != IDENTITY;
      Replay(pattern.content);
      ctm, hasCtm, currentClip, width, height := oldCtm, oldHasCtm, oldClip, oldWidth, oldHeight;
      return Success;
    }

    // _cairo_meta_surface_replay_and_create_regions: no answer of this surface ends it.
    method Replay(content: seq<Command>)
      requires Valid()
      modifies this
      ensures Valid() && Framed() == FrameAfter(old(Framed()), content)
      ensures ops == old(ops) + TraceContent(bounds, old(Framed()), content)
      decreases content
    {
      hide Run, TraceCommand, ProperBounds, AllVisible, ClipAfter;
      for i := 0 to |content|
        invariant Valid() && Framed() == FrameAfter(old(Framed()), content[..i])
        invariant ops == old(ops) + TraceContent(bounds, old(Framed()), content[..i])
      {
        assert content[..i + 1][..i] == content[..i];
        var status := Execute(content[i]);
      }
      assert content[..|content|] == content;
    }

    method Execute(c: Command) returns (status: Status)
      requires Valid()
      modifies this
      ensures Valid() && Framed() == ClipAfter(old(Framed()), c) && status in {Success, ImageFallback}
      ensures ops == old(ops) + TraceCommand(bounds, old(Framed()), c)
      decreases c
    {
      hide Run, TraceDraw, ProperBounds, AllVisible, Intersect;
      status := Success;
      match c
      case ResetClip => currentClip := Rect(0, 0, width, height);
      case IntersectClip(extent) => currentClip := Intersect(currentClip, extent);
      case Draw(extents, reply) => status := Paint(extents, reply);
    }

    // _cairo_analysis_surface_paint and _mask
    method Paint(extents: Rect, reply: Reply) returns (status: Status)
      requires Valid()
      modifies this
      ensures Valid() && Framed() == old(Framed()) && status in {Success, ImageFallback}
      ensures ops == old(ops) + TraceDraw(bounds, old(Framed()), extents, reply)
      decreases reply
    {
      hide Run, OnPage, TraceContent, ProperBounds, AllVisible, Intersect, Cells, Nested;
      ghost var before, frame := ops, Framed();
      var backendStatus := Success;
      if reply.Plain? {
        backendStatus := reply.status;
      } else {
        var patterns := reply.patterns;
        for i := 0 to |patterns|
          invariant Valid() && Framed() == frame && backendStatus == Success
          invariant ops == before + TracePatterns(bounds, frame, patterns[..i])
        {
          assert patterns[..i + 1][..i] == patterns[..i];
          var s := AnalyzeMetaSurfacePattern(patterns[i]);
          backendStatus := MergeStatus(backendStatus, s);
        }
        assert patterns[..|patterns|] == patterns;
      }
      status := AddOperation(Intersect(extents, currentClip), backendStatus);
    }
  }

  lemma StaysProper(bounds: Bounds, m: Matrix, b: Box)
    requires ProperBounds(bounds) && Proper(b)
    ensures Proper(bounds(m, b))
  {
  }
}
