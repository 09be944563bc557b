// The comparators and determinants in machine integers: 32-bit differences,
// 64-bit products, 128-bit determinants (cairo-bentley-ottmann.c, lines 144-429
// and 572-653). For coordinates in [0, 2^31 - 1] nothing wraps around.
module Machine {
  import opened Arith
  import opened Geometry
  import opened Intersect

  const HALF64: int := 0x8000_0000_0000_0000
  const HALF96: int := 0x8000_0000_0000_0000_0000_0000
  const HALF128: int := 0x8000_0000_0000_0000_0000_0000_0000_0000

  // Two's complement wrap-around into [-half, half).
  function Wrap(v: int, half: int): int
    requires half > 0
  {
    (v + half) % (2 * half) - half
  }

  lemma WrapFits(v: int, half: int)
    requires -half <= v < half
    ensures Wrap(v, half) == v
  {
    var x, m := v + half, 2 * half;
    QuotientIsZero(x / m, x % m, x, m);
  }

  lemma QuotientIsZero(q: int, r: int, x: int, m: int)
    requires 0 <= x < m && 0 <= r < m && x == m * q + r
    ensures q == 0 && r == x
  {
    if q >= 1 { MonotoneProduct(m, 1, q); }
    if q <= -1 { MonotoneProduct(m, 1, -q); }
  }

  function Sub32(a: int, b: int): int { Wrap(a - b, TWO31) }
  function Mul64(a: int, b: int): int { Wrap(a * b, HALF64) }
  function Sub64(a: int, b: int): int { Wrap(a - b, HALF64) }
  function Mul128(a: int, b: int): int { Wrap(a * b, HALF128) }
  function Sub128(a: int, b: int): int { Wrap(a - b, HALF128) }

  predicate Within(v: int, bound: int) {
    -bound < v < bound
  }

  lemma ProductWithin(a: int, b: int, m: nat, n: nat)
    requires Within(a, m) && Within(b, n)
    ensures Within(a * b, m * n)
  {
    var p, q := Abs(a), Abs(b);
    assert p * q < m * n || m == 0 || n == 0 by {
      assert p * q <= p * n by { MonotoneProduct(p, q, n); }
      assert p * n < m * n by { MonotoneProduct(n, p, m); StrictProduct(n, p, m); }
    }
    assert a * b == p * q || a * b == -(p * q);
  }

  lemma MonotoneProduct(k: nat, a: nat, b: nat)
    requires a <= b
    ensures k * a <= k * b
  {
  }

  lemma StrictProduct(k: nat, a: nat, b: nat)
    requires a < b && 0 < k
    ensures a * k < b * k
  {
  }

  // The difference of two coordinates in range.
  lemma Delta(a: int, b: int)
    requires 0 <= a < TWO31 && 0 <= b < TWO31
    ensures Sub32(a, b) == a - b && Within(a - b, TWO31)
  {
    WrapFits(a - b, TWO31);
  }

  lemma Product64(a: int, b: int)
    requires Within(a, TWO31) && Within(b, TWO31)
    ensures Mul64(a, b) == a * b && Within(a * b, TWO31 * TWO31)
  {
    ProductWithin(a, b, TWO31, TWO31);
    WrapFits(a * b, HALF64);
  }

  // A 64-bit product by a 32-bit difference, as all those of the tessellator are.
  lemma Product128(a: int, b: int)
    requires Within(a, 2 * TWO31 * TWO31) && Within(b, TWO31)
    ensures Mul128(a, b) == a * b
    ensures Within(a * b, 2 * TWO31 * TWO31 * TWO31)
    ensures Within(a, TWO31 * TWO31) ==> Within(a * b, TWO31 * TWO31 * TWO31)
  {
    ProductWithin(a, b, 2 * TWO31 * TWO31, TWO31);
    if Within(a, TWO31 * TWO31) { ProductWithin(a, b, TWO31 * TWO31, TWO31); }
    WrapFits(a * b, HALF128);
  }

  // ---- _slope_compare ----

  function MachineSlopeCompare(a: Edge, b: Edge): int {
    var adx := Sub32(a.bottom.x, a.top.x);
    var bdx := Sub32(b.bottom.x, b.top.x);
    if (adx < 0) != (bdx < 0) then (if adx < 0 then -1 else 1)
    else
      var ady := Sub32(a.bottom.y, a.top.y);
      var bdy := Sub32(b.bottom.y, b.top.y);
      var l, r := Mul64(adx, bdy), Mul64(bdx, ady);
      if l < r then -1 else if l > r then 1 else 0
  }

  lemma SlopeCompareFits(a: Edge, b: Edge)
    requires InRange(a) && InRange(b)
    ensures MachineSlopeCompare(a, b) == SlopeCompare(a, b)
  {
    hide Sub32, Mul64;
    Delta(a.bottom.x, a.top.x);
    Delta(b.bottom.x, b.top.x);
    Delta(a.bottom.y, a.top.y);
    Delta(b.bottom.y, b.top.y);
    Product64(a.bottom.x - a.top.x, b.bottom.y - b.top.y);
    Product64(b.bottom.x - b.top.x, a.bottom.y - a.top.y);
  }

  // ---- edges_compare_x_for_y_general and edge_compare_for_y_against_x ----

  function MachineCompareXGeneral(a: Edge, b: Edge, y: int): int {
    var adx, ady := Sub32(a.bottom.x, a.top.x), Sub32(a.bottom.y, a.top.y);
    var bdx, bdy := Sub32(b.bottom.x, b.top.x), Sub32(b.bottom.y, b.top.y);
    var l := Mul128(Mul64(ady, bdy), Sub32(a.top.x, b.top.x));
    var r := Sub128(Mul128(Mul64(bdx, ady), Sub32(y, b.top.y)), Mul128(Mul64(adx, bdy), Sub32(y, a.top.y)));
    if l < r then -1 else if l > r then 1 else 0
  }

  lemma CompareXGeneralFits(a: Edge, b: Edge, y: int)
    requires InRange(a) && InRange(b) && 0 <= y < TWO31
    ensures MachineCompareXGeneral(a, b, y) == CompareXGeneral(a, b, y)
  {
    hide Sub32, Mul64, Mul128;
    var adx, ady := a.bottom.x - a.top.x, a.bottom.y - a.top.y;
    var bdx, bdy := b.bottom.x - b.top.x, b.bottom.y - b.top.y;
    Delta(a.bottom.x, a.top.x);
    Delta(b.bottom.x, b.top.x);
    Delta(a.bottom.y, a.top.y);
    Delta(b.bottom.y, b.top.y);
    Delta(a.top.x, b.top.x);
    Delta(y, b.top.y);
    Delta(y, a.top.y);
    Product64(ady, bdy);
    Product64(bdx, ady);
    Product64(adx, bdy);
    Product128(ady * bdy, a.top.x - b.top.x);
    Product128(bdx * ady, y - b.top.y);
    Product128(adx * bdy, y - a.top.y);
    WrapFits((bdx * ady) * (y - b.top.y) - (adx * bdy) * (y - a.top.y), HALF128);
  }

  function MachineCompareAgainstX(a: Edge, y: int, x: int): int {
    var adx, ady := Sub32(a.bottom.x, a.top.x), Sub32(a.bottom.y, a.top.y);
    var l, r := Mul64(Sub32(y, a.top.y), adx), Mul64(Sub32(x, a.top.x), ady);
    if l < r then -1 else if l > r then 1 else 0
  }

  lemma CompareAgainstXFits(a: Edge, y: int, x: int)
    requires InRange(a) && 0 <= y < TWO31 && 0 <= x < TWO31
    ensures MachineCompareAgainstX(a, y, x) == CompareAgainstX(a, y, x)
  {
    hide Sub32, Mul64;
    Delta(a.bottom.x, a.top.x);
    Delta(a.bottom.y, a.top.y);
    Delta(y, a.top.y);
    Delta(x, a.top.x);
    Product64(y - a.top.y, a.bottom.x - a.top.x);
    Product64(x - a.top.x, a.bottom.y - a.top.y);
  }

  // ---- _cairo_bo_point32_compare ----

  function MachineComparePoints(a: Point, b: Point): int {
    var cmp := Sub32(a.y, b.y);
    if cmp != 0 then cmp else Sub32(a.x, b.x)
  }

  lemma ComparePointsFits(a: Point, b: Point)
    requires PointInRange(a) && PointInRange(b)
    ensures MachineComparePoints(a, b) == ComparePoints(a, b)
  {
    hide Sub32;
    Delta(a.y, b.y);
    Delta(a.x, b.x);
  }

  // Points on rows of the grid, in any 32-bit columns, are ordered rightly if and only
  // if they differ in row or the difference of their columns fits 32 bits.
  lemma ComparePointsFitsExactly(a: Point, b: Point)
    requires 0 <= a.y < TWO31 && 0 <= b.y < TWO31
    requires -TWO31 <= a.x < TWO31 && -TWO31 <= b.x < TWO31
    ensures Sign(MachineComparePoints(a, b)) == Sign(ComparePoints(a, b)) <==>
              a.y != b.y || -TWO31 <= a.x - b.x < TWO31
  {
    Delta(a.y, b.y);
    WrapsToward(a.x - b.x);
    hide Wrap;
  }

  // ---- edges_compare_x_for_y and _cairo_bo_sweep_line_compare_edges ----

  function MachineCompareX(a: Edge, b: Edge, y: int): int {
    match (EndAbscissa(a, y), EndAbscissa(b, y))
    case (Unknown, Unknown) => MachineCompareXGeneral(a, b, y)
    case (Known(ax), Unknown) => -MachineCompareAgainstX(b, y, ax)
    case (Unknown, Known(bx)) => MachineCompareAgainstX(a, y, bx)
    case (Known(ax), Known(bx)) => Sub32(ax, bx)
  }

  lemma CompareXFits(a: Edge, b: Edge, y: int)
    requires InRange(a) && InRange(b) && 0 <= y < TWO31
    ensures MachineCompareX(a, b, y) == CompareX(a, b, y)
  {
    hide Sub32, MachineCompareXGeneral, MachineCompareAgainstX, CompareXGeneral, CompareAgainstX;
    CompareXGeneralFits(a, b, y);
    match (EndAbscissa(a, y), EndAbscissa(b, y))
    case (Unknown, Unknown) =>
    case (Known(ax), Unknown) => CompareAgainstXFits(b, y, ax);
    case (Unknown, Known(bx)) => CompareAgainstXFits(a, y, bx);
    case (Known(ax), Known(bx)) => Delta(ax, bx);
  }

  // The boxes are only compared, so the stored points may be anywhere.
  function MachineCompareEdges(a: Active, b: Active, y: int): int {
    if a.id == b.id then 0
    else if CompareBoxes(a, b) != 0 then CompareBoxes(a, b)
    else
      var c := MachineCompareX(a.edge, b.edge, y);
      if c != 0 then c
      else
        var c := MachineSlopeCompare(a.edge, b.edge);
        if c != 0 then c
        else
          var c := MachineComparePoints(a.edge.top, b.edge.top);
          if c != 0 then c
          else
            var c := MachineComparePoints(a.edge.bottom, b.edge.bottom);
            if c != 0 then c else if a.id > b.id then 1 else -1
  }

  lemma CompareEdgesFits(a: Active, b: Active, y: int)
    requires InRange(a.edge) && InRange(b.edge) && 0 <= y < TWO31
    ensures MachineCompareEdges(a, b, y) == CompareEdges(a, b, y)
  {
    hide MachineCompareX, CompareX, MachineSlopeCompare, SlopeCompare, MachineComparePoints, ComparePoints,
         CompareBoxes;
    CompareXFits(a.edge, b.edge, y);
    SlopeCompareFits(a.edge, b.edge);
    ComparePointsFits(a.edge.top, b.edge.top);
    ComparePointsFits(a.edge.bottom, b.edge.bottom);
  }

  // ---- det32_64, det64x32_128 and the operands of intersect_lines ----

  function MachineDet64(a: int, b: int, c: int, d: int): int {
    Sub64(Mul64(a, d), Mul64(b, c))
  }

  function MachineDet128(a: int, b: int, c: int, d: int): int {
    Sub128(Mul128(a, d), Mul128(c, b))
  }

  lemma Det64Fits(a: int, b: int, c: int, d: int)
    requires Within(a, TWO31) && Within(b, TWO31) && Within(c, TWO31) && Within(d, TWO31)
    ensures MachineDet64(a, b, c, d) == Det(a, b, c, d) && Within(Det(a, b, c, d), 2 * TWO31 * TWO31)
  {
    hide Mul64;
    Product64(a, d);
    Product64(b, c);
    WrapFits(a * d - b * c, HALF64);
  }

  lemma Det128Fits(a: int, b: int, c: int, d: int)
    requires Within(a, TWO31 * TWO31) && Within(c, TWO31 * TWO31) && Within(b, TWO31) && Within(d, TWO31)
    ensures MachineDet128(a, b, c, d) == Det(a, b, c, d) && Within(Det(a, b, c, d), HALF96)
  {
    hide Mul128;
    Product128(a, d);
    Product128(c, b);
    WrapFits(a * d - c * b, HALF128);
  }

  // The end points of an edge in range span a determinant of 62 bits.
  lemma EndDetFits(e: Edge)
    requires InRange(e)
    ensures MachineDet64(e.top.x, e.top.y, e.bottom.x, e.bottom.y) == EndDet(e)
    ensures Within(EndDet(e), TWO31 * TWO31)
  {
    Det64Fits(e.top.x, e.top.y, e.bottom.x, e.bottom.y);
    NonNegativeProduct(e.top.x, e.bottom.y);
    NonNegativeProduct(e.top.y, e.bottom.x);
    ProductWithin(e.top.x, e.bottom.y, TWO31, TWO31);
    ProductWithin(e.top.y, e.bottom.x, TWO31, TWO31);
  }

  lemma NonNegativeProduct(a: int, b: int)
    requires a >= 0 && b >= 0
    ensures a * b >= 0
  {
  }

  // The quantities intersect_lines divides.
  datatype Operands = Operands(den: int, numX: int, numY: int)

  function MachineOperands(a: Edge, b: Edge): Operands {
    var dx1, dy1 := Sub32(a.top.x, a.bottom.x), Sub32(a.top.y, a.bottom.y);
    var dx2, dy2 := Sub32(b.top.x, b.bottom.x), Sub32(b.top.y, b.bottom.y);
    var aDet := MachineDet64(a.top.x, a.top.y, a.bottom.x, a.bottom.y);
    var bDet := MachineDet64(b.top.x, b.top.y, b.bottom.x, b.bottom.y);
    Operands(MachineDet64(dx1, dy1, dx2, dy2), MachineDet128(aDet, dx1, bDet, dx2), MachineDet128(aDet, dy1, bDet, dy2))
  }

  // The denominator fits 64 bits and both numerators 96, and all are exact.
  lemma OperandsFit(a: Edge, b: Edge)
    requires InRange(a) && InRange(b)
    ensures MachineOperands(a, b) == Operands(Denominator(a, b), NumeratorX(a, b), NumeratorY(a, b))
    ensures Within(Denominator(a, b), HALF64)
    ensures Within(NumeratorX(a, b), HALF96) && Within(NumeratorY(a, b), HALF96)
  {
    hide Sub32, MachineDet64, MachineDet128, Det, EndDet;
    Delta(a.top.x, a.bottom.x);
    Delta(a.top.y, a.bottom.y);
    Delta(b.top.x, b.bottom.x);
    Delta(b.top.y, b.bottom.y);
    EndDetFits(a);
    EndDetFits(b);
    Det64Fits(a.top.x - a.bottom.x, a.top.y - a.bottom.y, b.top.x - b.bottom.x, b.top.y - b.bottom.y);
    Det128Fits(EndDet(a), a.top.x - a.bottom.x, EndDet(b), b.top.x - b.bottom.x);
    Det128Fits(EndDet(a), a.top.y - a.bottom.y, EndDet(b), b.top.y - b.bottom.y);
  }

  // Without the clamp: beside an upright edge, the slope of any edge that fits in height
  // is judged rightly if and only if its width fits 32 bits too.
  lemma SlopesTurnBeyondTheClamp(a: Edge, b: Edge)
    requires Downward(a) && Downward(b) && b.bottom.x == b.top.x
    requires a.bottom.y - a.top.y < TWO31 && b.bottom.y - b.top.y < TWO31
    requires -TWO31 <= a.top.x < TWO31 && -TWO31 <= a.bottom.x < TWO31
    ensures MachineSlopeCompare(a, b) == SlopeCompare(a, b) <==> -TWO31 <= a.bottom.x - a.top.x < TWO31
  {
    hide Sub32, Mul64;
    var w, h, k := a.bottom.x - a.top.x, b.bottom.y - b.top.y, a.bottom.y - a.top.y;
    Differences(a, b);
    SignOfProduct(w, h, k);
    var v := Sub32(a.bottom.x, a.top.x);
    if v >= 0 { UprightProducts(v, h, k); }
  }

  lemma Differences(a: Edge, b: Edge)
    requires Downward(a) && Downward(b) && b.bottom.x == b.top.x
    requires a.bottom.y - a.top.y < TWO31 && b.bottom.y - b.top.y < TWO31
    requires -TWO31 <= a.top.x < TWO31 && -TWO31 <= a.bottom.x < TWO31
    ensures Sub32(b.bottom.x, b.top.x) == 0
    ensures Sub32(a.bottom.y, a.top.y) == a.bottom.y - a.top.y && Sub32(b.bottom.y, b.top.y) == b.bottom.y - b.top.y
    ensures var w := a.bottom.x - a.top.x;
      Sub32(a.bottom.x, a.top.x) == if w >= TWO31 then w - 2 * TWO31 else if w < -TWO31 then w + 2 * TWO31 else w
    ensures -TWO31 <= Sub32(a.bottom.x, a.top.x) < TWO31
  {
    WrapFits(0, TWO31);
    WrapFits(b.bottom.y - b.top.y, TWO31);
    WrapFits(a.bottom.y - a.top.y, TWO31);
    WrapsToward(a.bottom.x - a.top.x);
  }

  lemma UprightProducts(v: int, h: int, k: int)
    requires 0 <= v < TWO31 && 0 < h < TWO31
    ensures Mul64(0, k) == 0 && Mul64(v, h) >= 0 && (Mul64(v, h) == 0 <==> v == 0)
  {
    Product64(v, h);
    WrapFits(0, HALF64);
    SignOfProduct(v, h, k);
  }

  lemma WrapsToward(w: int)
    requires -2 * TWO31 < w < 2 * TWO31
    ensures Wrap(w, TWO31) == if w >= TWO31 then w - 2 * TWO31 else if w < -TWO31 then w + 2 * TWO31 else w
  {
  }

  lemma SignOfProduct(w: int, h: int, k: int)
    requires h > 0
    ensures Sign(w * h - 0 * k) == Sign(w * h) == Sign(w)
  {
  }
}
