// Crossing points of edges: the determinants, the truncated quotients and the
// containment test (cairo-bentley-ottmann.c, lines 570-776, with the division of
// cairo-wideint.c, lines 708-860).
module Intersect {
  import opened Arith
  import opened Geometry

  const TWO31: int := 0x8000_0000
  const TWO32: int := 0x1_0000_0000

  function Abs(v: int): nat {
    if v < 0 then -v else v
  }

  // ---- _cairo_int_96by64_32x64_divrem ----

  datatype QuoRem = QuoRem(quo: int, rem: int)

  // Truncated division; a remainder equal to the divisor reports that the
  // magnitude of the quotient does not fit 32 bits.
  function DivRem(num: int, den: int): QuoRem
    requires den != 0
  {
    if Abs(num) >= Abs(den) * TWO32 then QuoRem(0x7FFF_FFFF_FFFF_FFFF, den)
    else
      var q := Abs(num) / Abs(den);
      var r := Abs(num) % Abs(den);
      QuoRem(if (num < 0) != (den < 0) then -q else q, if num < 0 then -r else r)
  }

  // _cairo_int64_to_int32: the low 32 bits, read as a signed number.
  function ToInt32(v: int): int {
    (v + TWO31) % TWO32 - TWO31
  }

  // ---- intersect_lines ----

  datatype Ordinate = Ordinate(value: int, inexact: bool)

  datatype Lines = Parallel | TooFar | Cross(x: Ordinate, y: Ordinate)

  function Det(a: int, b: int, c: int, d: int): int {
    a * d - b * c
  }

  function Denominator(a: Edge, b: Edge): int {
    Det(a.top.x - a.bottom.x, a.top.y - a.bottom.y, b.top.x - b.bottom.x, b.top.y - b.bottom.y)
  }

  function EndDet(e: Edge): int {
    Det(e.top.x, e.top.y, e.bottom.x, e.bottom.y)
  }

  function NumeratorX(a: Edge, b: Edge): int {
    Det(EndDet(a), a.top.x - a.bottom.x, EndDet(b), b.top.x - b.bottom.x)
  }

  function NumeratorY(a: Edge, b: Edge): int {
    Det(EndDet(a), a.top.y - a.bottom.y, EndDet(b), b.top.y - b.bottom.y)
  }

  function ToOrdinate(q: QuoRem): Ordinate {
    Ordinate(ToInt32(q.quo), q.rem != 0)
  }

  function IntersectLines(a: Edge, b: Edge): Lines {
    var den := Denominator(a, b);
    if den == 0 then Parallel
    else
      var qx := DivRem(NumeratorX(a, b), den);
      if qx.rem == den then TooFar
      else
        var qy := DivRem(NumeratorY(a, b), den);
        if qy.rem == den then TooFar
        else Cross(ToOrdinate(qx), ToOrdinate(qy))
  }

  // ---- _cairo_bo_intersect_ordinate_32_compare and containment ----

  function CompareOrdinate(a: Ordinate, b: int): int {
    if a.value > b then 1 else if a.value < b then -1 else if a.inexact then 1 else 0
  }

  predicate Contains(e: Edge, x: Ordinate, y: Ordinate) {
    var cmpTop := CompareOrdinate(y, e.top.y);
    var cmpBottom := CompareOrdinate(y, e.bottom.y);
    if cmpTop < 0 || cmpBottom > 0 then false
    else if cmpTop > 0 && cmpBottom < 0 then true
    else if cmpTop == 0 then CompareOrdinate(x, e.top.x) > 0
    else CompareOrdinate(x, e.bottom.x) < 0
  }

  // ---- _cairo_bo_edge_intersect ----

  datatype Meeting = ParallelLines | Apart | Meet(at: Point)

  function EdgeIntersect(a: Edge, b: Edge): Meeting {
    match IntersectLines(a, b)
    case Parallel => ParallelLines
    case TooFar => Apart
    case Cross(x, y) =>
      if !Contains(a, x, y) then Apart
      else if !Contains(b, x, y) then Apart
      else Meet(Point(x.value, y.value))
  }

  // ---- The exact crossing ----

  // The ordinate at which two lines of different slope meet.
  ghost function CrossY(a: Edge, b: Edge): real
    requires Downward(a) && Downward(b) && Slope(a) != Slope(b)
  {
    (XAt(b, 0.0) - XAt(a, 0.0)) / (Slope(a) - Slope(b))
  }

  ghost function CrossX(a: Edge, b: Edge): real
    requires Downward(a) && Downward(b) && Slope(a) != Slope(b)
  {
    XAt(a, CrossY(a, b))
  }

  // The crossing is the one ordinate at which the abscissae agree.
  lemma CrossIsTheMeeting(a: Edge, b: Edge, y: real)
    requires Downward(a) && Downward(b) && Slope(a) != Slope(b)
    ensures XAt(a, y) == XAt(b, y) <==> y == CrossY(a, b)
  {
    XAtMoved(a, 0.0, y);
    XAtMoved(b, 0.0, y);
    var d := Slope(a) - Slope(b);
    assert CrossY(a, b) * d == XAt(b, 0.0) - XAt(a, 0.0);
    assert XAt(a, y) - XAt(b, y) == (y - CrossY(a, b)) * d;
  }

  // Position (x, y) lies strictly between the ends in sweep order: by row, then by column.
  ghost predicate StrictlyInside(e: Edge, x: real, y: real) {
    && (y > e.top.y as real || (y == e.top.y as real && x > e.top.x as real))
    && (y < e.bottom.y as real || (y == e.bottom.y as real && x < e.bottom.x as real))
  }

  // Offset and clamped coordinates are in [0, 2^31 - 1].
  predicate PointInRange(p: Point) {
    0 <= p.x < TWO31 && 0 <= p.y < TWO31
  }

  predicate InRange(e: Edge) {
    PointInRange(e.top) && PointInRange(e.bottom)
  }

  // ---- The determinants compute the exact crossing ----

  lemma EndDetIsIntercept(e: Edge)
    requires Downward(e)
    ensures EndDet(e) as real == XAt(e, 0.0) * (e.bottom.y - e.top.y) as real
  {
    var dx, dy := e.bottom.x - e.top.x, e.bottom.y - e.top.y;
    SlopeTimesHeight(e);
    assert EndDet(e) == e.top.x * dy - e.top.y * dx;
    MulToReal(e.top.x, dy);
    MulToReal(e.top.y, dx);
  }

  lemma DenominatorIsExact(a: Edge, b: Edge)
    requires Downward(a) && Downward(b)
    ensures Denominator(a, b) as real
         == ((a.bottom.y - a.top.y) as real * (b.bottom.y - b.top.y) as real) * (Slope(a) - Slope(b))
    ensures Denominator(a, b) == 0 <==> Slope(a) == Slope(b)
  {
    var adx, ady := a.bottom.x - a.top.x, a.bottom.y - a.top.y;
    var bdx, bdy := b.bottom.x - b.top.x, b.bottom.y - b.top.y;
    SlopeTimesHeight(a);
    SlopeTimesHeight(b);
    var den := Denominator(a, b);
    assert den == adx * bdy - ady * bdx;
    MulToReal(adx, bdy);
    MulToReal(ady, bdx);
    var p := ady as real * bdy as real;
    assert p > 0.0 by { MulToReal(ady, bdy); }
    assert adx as real * bdy as real == p * Slope(a);
    assert ady as real * bdx as real == p * Slope(b);
    if Slope(a) != Slope(b) {
      SignScaled(p, Slope(a) - Slope(b));
    }
  }

  // Two lines with intercepts xa, xb and slopes sa, sb that meet at ordinate y.
  lemma MeetingAbscissa(xa: real, sa: real, xb: real, sb: real, y: real)
    requires y * (sa - sb) == xb - xa
    ensures (xa + y * sa) * (sa - sb) == xb * sa - xa * sb
  {
    var d := sa - sb;
    assert (xa + y * sa) * d == xa * d + (y * d) * sa;
    assert (y * d) * sa == (xb - xa) * sa;
  }

  lemma Scaled(p: real, d: real, v: real, n: real)
    requires v * d == n
    ensures p * n == v * (p * d)
  {
  }

  // m determinants of the ends, h heights, c intercepts, d the slope difference.
  lemma RowNumerator(ma: int, ha: int, mb: int, hb: int, ca: real, cb: real, d: real, den: int, y: real)
    requires ma as real == ca * ha as real && mb as real == cb * hb as real
    requires den as real == ha as real * hb as real * d
    requires y * d == cb - ca
    ensures Det(ma, -ha, mb, -hb) as real == y * den as real
  {
    var p := ha as real * hb as real;
    assert Det(ma, -ha, mb, -hb) == mb * ha - ma * hb;
    MulToReal(mb, ha);
    MulToReal(ma, hb);
    assert mb as real * ha as real == p * cb;
    assert ma as real * hb as real == p * ca;
    Scaled(p, d, y, cb - ca);
  }

  // w widths, with w = s * h for the slopes s.
  lemma ColumnNumerator(ma: int, wa: int, ha: int, sa: real, mb: int, wb: int, hb: int, sb: real,
                        ca: real, cb: real, den: int, y: real)
    requires ma as real == ca * ha as real && mb as real == cb * hb as real
    requires sa * ha as real == wa as real && sb * hb as real == wb as real
    requires den as real == ha as real * hb as real * (sa - sb)
    requires y * (sa - sb) == cb - ca
    ensures Det(ma, -wa, mb, -wb) as real == (ca + y * sa) * den as real
  {
    var p := ha as real * hb as real;
    assert Det(ma, -wa, mb, -wb) == mb * wa - ma * wb;
    MulToReal(mb, wa);
    MulToReal(ma, wb);
    assert mb as real * wa as real == p * (cb * sa);
    assert ma as real * wb as real == p * (ca * sb);
    MeetingAbscissa(ca, sa, cb, sb, y);
    Scaled(p, sa - sb, ca + y * sa, cb * sa - ca * sb);
  }

  lemma CrossYTimesSlopes(a: Edge, b: Edge)
    requires Downward(a) && Downward(b) && Slope(a) != Slope(b)
    ensures CrossY(a, b) * (Slope(a) - Slope(b)) == XAt(b, 0.0) - XAt(a, 0.0)
    ensures CrossX(a, b) == XAt(a, 0.0) + CrossY(a, b) * Slope(a)
  {
    XAtMoved(a, 0.0, CrossY(a, b));
  }

  lemma NumeratorYIsExact(a: Edge, b: Edge)
    requires Downward(a) && Downward(b) && Slope(a) != Slope(b)
    ensures NumeratorY(a, b) as real == CrossY(a, b) * Denominator(a, b) as real
  {
    hide Slope, XAt, CrossY, EndDet, Denominator;
    DenominatorIsExact(a, b);
    EndDetIsIntercept(a);
    EndDetIsIntercept(b);
    CrossYTimesSlopes(a, b);
    RowNumerator(EndDet(a), a.bottom.y - a.top.y, EndDet(b), b.bottom.y - b.top.y,
                 XAt(a, 0.0), XAt(b, 0.0), Slope(a) - Slope(b), Denominator(a, b), CrossY(a, b));
  }

  lemma NumeratorXIsExact(a: Edge, b: Edge)
    requires Downward(a) && Downward(b) && Slope(a) != Slope(b)
    ensures NumeratorX(a, b) as real == CrossX(a, b) * Denominator(a, b) as real
  {
    hide Slope, XAt, CrossX, CrossY, EndDet, Denominator;
    DenominatorIsExact(a, b);
    EndDetIsIntercept(a);
    EndDetIsIntercept(b);
    SlopeTimesHeight(a);
    SlopeTimesHeight(b);
    CrossYTimesSlopes(a, b);
    ColumnNumerator(EndDet(a), a.bottom.x - a.top.x, a.bottom.y - a.top.y, Slope(a),
                    EndDet(b), b.bottom.x - b.top.x, b.bottom.y - b.top.y, Slope(b),
                    XAt(a, 0.0), XAt(b, 0.0), Denominator(a, b), CrossY(a, b));
  }

  // ---- Truncated quotients against the exact value ----

  // The exact value num/den, when it is not negative, orders against an integer
  // in range as the 32-bit quotient with its exactness flag does.
  lemma OrdinateIsExact(num: int, den: int, v: real, b: int)
    requires den != 0 && num as real == v * den as real
    requires 0 <= b < TWO31
    requires 0.0 <= v < TWO31 as real
    ensures DivRem(num, den).rem != den
    ensures ToOrdinate(DivRem(num, den)).value == v.Floor
    ensures CompareOrdinate(ToOrdinate(DivRem(num, den)), b) == SignOf(v - b as real)
  {
    hide DivRem, ToInt32;
    QuotientIsSeen(num, den, v);
    InGridToInt32(v.Floor);
  }

  lemma InGridToInt32(q: int)
    requires 0 <= q < TWO31
    ensures ToInt32(q) == q
  {
  }

  lemma DivRemIs(num: int, den: int, q: int, r: int)
    requires den != 0 && Abs(num) < Abs(den) * TWO32 && q == Abs(num) / Abs(den) && r == Abs(num) % Abs(den)
    ensures 0 <= r < Abs(den) && (r < den || r < -den)
    ensures DivRem(num, den) == QuoRem(if (num < 0) != (den < 0) then -q else q, if num < 0 then -r else r)
    ensures DivRem(num, den).rem != den
    ensures num == 0 ==> q == 0
  {
  }

  lemma AbsoluteValues(num: int, den: int, v: real)
    requires den != 0 && num as real == v * den as real
    requires v >= 0.0
    ensures Abs(den) > 0
    ensures Abs(num) as real == v * Abs(den) as real
    ensures num != 0 ==> (num < 0) == (den < 0)
  {
    if den < 0 {
      assert (-v) * den as real >= 0.0;
    } else {
      assert v * den as real >= 0.0;
    }
  }

  // A remainder r of a division by d is the fractional part scaled by d.
  lemma Fraction(t: real, d: int, r: int)
    requires 0 <= r < d && r as real == t * d as real
    ensures 0.0 <= t < 1.0
    ensures t == 0.0 <==> r == 0
  {
  }

  lemma FloorOfQuotient(n: nat, d: nat, v: real)
    requires d > 0 && n as real == v * d as real
    ensures v.Floor == n / d
    ensures n % d == 0 <==> v == v.Floor as real
  {
    var q, r := n / d, n % d;
    assert n == q * d + r;
    MulToReal(q, d);
    Fraction(v - q as real, d, r);
  }

  lemma Negated(num: int, den: int, v: real)
    requires den != 0 && num as real == v * den as real && v < 0.0
    ensures Abs(-num) == Abs(num) && num != 0 && ((num < 0) != (den < 0))
    ensures (-num) as real == (-v) * den as real
  {
    if den > 0 { ProductSign(den as real, v); } else { ProductSign((-den) as real, v); }
  }

  ghost function Truncated(v: real): int {
    if v >= 0.0 then v.Floor else -((-v).Floor)
  }

  // The value an ordinate stands for once it is truncated and cut to 32 bits: itself
  // when it was a whole number, and otherwise anything up to the next one.
  ghost function Seen(v: real): real {
    ToInt32(Truncated(v)) as real + if v == Truncated(v) as real then 0.0 else 0.5
  }

  ghost predicate Fits(v: real) {
    -(TWO32 as real) < v < TWO32 as real
  }

  lemma SmallQuotient(n: nat, d: nat, v: real, k: nat)
    requires d > 0 && n as real == v * d as real
    ensures n < d * k <==> v < k as real
  {
    MulToReal(d, k);
    assert (k as real - v) * d as real == (d * k) as real - n as real;
    ProductSign(d as real, k as real - v);
  }

  lemma QuotientIsSeen(num: int, den: int, v: real)
    requires den != 0 && num as real == v * den as real
    ensures DivRem(num, den).rem != den <==> Fits(v)
    ensures Fits(v) ==> ToOrdinate(DivRem(num, den)) == Ordinate(ToInt32(Truncated(v)), v != Truncated(v) as real)
  {
    hide DivRem, Abs, ToInt32;
    var n, d, w := Abs(num), Abs(den), if v >= 0.0 then v else -v;
    MagnitudeOfQuotient(num, den, v);
    SmallQuotient(n, d, w, TWO32);
    if n < d * TWO32 {
      FloorOfQuotient(n, d, w);
      DivRemIs(num, den, n / d, n % d);
    } else {
      TooLarge(num, den);
    }
  }

  lemma MagnitudeOfQuotient(num: int, den: int, v: real)
    requires den != 0 && num as real == v * den as real
    ensures Abs(den) > 0 && Abs(num) as real == (if v >= 0.0 then v else -v) * Abs(den) as real
    ensures num != 0 ==> ((num < 0) != (den < 0) <==> v < 0.0)
    ensures v < 0.0 ==> num != 0
  {
    if v >= 0.0 {
      AbsoluteValues(num, den, v);
    } else {
      Negated(num, den, v);
      AbsoluteValues(-num, den, -v);
    }
  }

  lemma TooLarge(num: int, den: int)
    requires den != 0 && Abs(num) >= Abs(den) * TWO32
    ensures DivRem(num, den).rem == den
  {
  }

  // What becomes of an ordinate, range by range: from -2^31 - 1 on upwards it reappears
  // in the grid, moved by 2^32 and rounded up.
  lemma SeenByRange(v: real)
    requires Fits(v)
    ensures 0.0 <= v < TWO31 as real ==>
              Seen(v).Floor == v.Floor && (Seen(v) == v.Floor as real <==> v == v.Floor as real)
    ensures -1.0 < v < 0.0 ==> Seen(v) == 0.5
    ensures -(TWO31 as real) - 1.0 < v <= -1.0 || v >= TWO31 as real ==> Seen(v) < 0.0
    ensures v <= -(TWO31 as real) - 1.0 ==>
              var w := v + TWO32 as real;
              Seen(v) == if w == w.Floor as real then w else w.Floor as real + 1.5
  {
    if v < 0.0 {
      var q := (-v).Floor;
      assert q as real <= -v < q as real + 1.0;
      NegativeToInt32(q);
      FloorOfMoved(v, q);
    }
  }

  lemma NegativeToInt32(q: int)
    requires 0 <= q < TWO32
    ensures ToInt32(-q) == if q <= TWO31 then -q else TWO32 - q
  {
  }

  lemma FloorOfMoved(v: real, q: int)
    requires q as real <= -v < q as real + 1.0
    ensures var w := v + TWO32 as real;
      w.Floor == if v == -(q as real) then TWO32 - q else TWO32 - q - 1
  {
  }

  // ---- Containment ----

  lemma StrictlyInsideIsByRow(e: Edge, y: real)
    requires Downward(e)
    ensures StrictlyInside(e, XAt(e, y), y) <==> e.top.y as real < y < e.bottom.y as real
  {
    XAtEnds(e);
  }

  // On a point of the edge's own line, ordinates that order exactly decide containment exactly.
  lemma ContainsIsByRow(e: Edge, ox: Ordinate, oy: Ordinate, y: real)
    requires Downward(e)
    requires CompareOrdinate(oy, e.top.y) == SignOf(y - e.top.y as real)
    requires CompareOrdinate(oy, e.bottom.y) == SignOf(y - e.bottom.y as real)
    requires XAt(e, y) == e.top.x as real ==> CompareOrdinate(ox, e.top.x) == 0
    requires XAt(e, y) == e.bottom.x as real ==> CompareOrdinate(ox, e.bottom.x) == 0
    ensures Contains(e, ox, oy) <==> e.top.y as real < y < e.bottom.y as real
  {
    XAtEnds(e);
  }

  // An ordinate of 2^31 or more either does not fit or turns negative.
  lemma OrdinateTooHigh(num: int, den: int, v: real)
    requires den != 0 && num as real == v * den as real
    requires v >= TWO31 as real
    ensures DivRem(num, den).rem == den || ToOrdinate(DivRem(num, den)).value < 0
  {
    hide DivRem, ToInt32;
    QuotientIsSeen(num, den, v);
    if Fits(v) { SeenByRange(v); }
  }

  // The line of an edge of the sweep, met at or below row 0, is met inside the
  // edge exactly when the containment test says so.
  lemma OneContains(e: Edge, num: QuoRem, x: real, y: real, oy: Ordinate)
    requires Downward(e) && InRange(e) && x == XAt(e, y)
    requires forall k :: 0 <= k < TWO31 ==> CompareOrdinate(oy, k) == SignOf(y - k as real)
    requires 0.0 <= x < TWO31 as real ==>
      forall k :: 0 <= k < TWO31 ==> CompareOrdinate(ToOrdinate(num), k) == SignOf(x - k as real)
    ensures Contains(e, ToOrdinate(num), oy) <==> StrictlyInside(e, x, y)
  {
    StrictlyInsideIsByRow(e, y);
    ContainsIsByRow(e, ToOrdinate(num), oy, y);
  }

  lemma InsideIsInRange(e: Edge, y: real)
    requires Downward(e) && InRange(e) && StrictlyInside(e, XAt(e, y), y)
    ensures 0.0 <= y < TWO31 as real && 0.0 <= XAt(e, y) < TWO31 as real
  {
    StrictlyInsideIsByRow(e, y);
    BetweenEnds(e, y);
  }

  lemma OrdinatesAreExact(num: int, den: int, v: real)
    requires den != 0 && num as real == v * den as real
    requires 0.0 <= v < TWO31 as real
    ensures DivRem(num, den).rem != den
    ensures ToOrdinate(DivRem(num, den)).value == v.Floor
    ensures forall k :: 0 <= k < TWO31 ==> CompareOrdinate(ToOrdinate(DivRem(num, den)), k) == SignOf(v - k as real)
  {
    forall k | 0 <= k < TWO31
      ensures CompareOrdinate(ToOrdinate(DivRem(num, den)), k) == SignOf(v - k as real)
    {
      OrdinateIsExact(num, den, v, k);
    }
    OrdinateIsExact(num, den, v, 0);
  }

  ghost predicate CrossInside(a: Edge, b: Edge)
    requires Downward(a) && Downward(b)
  {
    && Slope(a) != Slope(b)
    && StrictlyInside(a, CrossX(a, b), CrossY(a, b))
    && StrictlyInside(b, CrossX(a, b), CrossY(a, b))
  }

  // Two edges whose lines cross at or below row 0 are reported to meet exactly
  // when the crossing is strictly inside both, and the point reported is its floor.
  lemma MeetsIffInside(a: Edge, b: Edge)
    requires Downward(a) && Downward(b) && InRange(a) && InRange(b)
    requires Slope(a) != Slope(b) ==> CrossY(a, b) >= 0.0
    ensures EdgeIntersect(a, b).Meet? <==> CrossInside(a, b)
    ensures CrossInside(a, b) ==>
              EdgeIntersect(a, b) == Meet(Point(CrossX(a, b).Floor, CrossY(a, b).Floor))
    ensures EdgeIntersect(a, b).ParallelLines? <==> Slope(a) == Slope(b)
  {
    DenominatorIsExact(a, b);
    if Slope(a) != Slope(b) {
      if CrossY(a, b) >= TWO31 as real {
        CrossBelowTheGrid(a, b);
      } else {
        CrossInTheGrid(a, b);
      }
    }
  }

  lemma CrossBelowTheGrid(a: Edge, b: Edge)
    requires Downward(a) && Downward(b) && InRange(a) && InRange(b)
    requires Slope(a) != Slope(b) && CrossY(a, b) >= TWO31 as real
    ensures EdgeIntersect(a, b).Apart? && !CrossInside(a, b)
  {
    hide XAt, Slope, CrossX, CrossY, Denominator, NumeratorX, NumeratorY, StrictlyInside, DivRem;
    DenominatorIsExact(a, b);
    NumeratorYIsExact(a, b);
    OrdinateTooHigh(NumeratorY(a, b), Denominator(a, b), CrossY(a, b));
    OutsideRows(a, b);
  }

  lemma CrossInTheGrid(a: Edge, b: Edge)
    requires Downward(a) && Downward(b) && InRange(a) && InRange(b)
    requires Slope(a) != Slope(b) && 0.0 <= CrossY(a, b) < TWO31 as real
    ensures EdgeIntersect(a, b).Meet? <==> CrossInside(a, b)
    ensures CrossInside(a, b) ==>
              EdgeIntersect(a, b) == Meet(Point(CrossX(a, b).Floor, CrossY(a, b).Floor))
    ensures !EdgeIntersect(a, b).ParallelLines?
  {
    hide XAt, Slope, CrossX, CrossY, Denominator, NumeratorX, NumeratorY, StrictlyInside, Contains,
         DivRem, CompareOrdinate;
    DenominatorIsExact(a, b);
    var x, y, den := CrossX(a, b), CrossY(a, b), Denominator(a, b);
    var qx, qy := DivRem(NumeratorX(a, b), den), DivRem(NumeratorY(a, b), den);
    NumeratorXIsExact(a, b);
    NumeratorYIsExact(a, b);
    CrossOnBoth(a, b);
    OrdinatesAreExact(NumeratorY(a, b), den, y);
    if 0.0 <= x < TWO31 as real {
      OrdinatesAreExact(NumeratorX(a, b), den, x);
    } else {
      OutsideRows(a, b);
    }
    OneContains(a, qx, x, y, ToOrdinate(qy));
    OneContains(b, qx, x, y, ToOrdinate(qy));
  }

  lemma CrossOnBoth(a: Edge, b: Edge)
    requires Downward(a) && Downward(b) && Slope(a) != Slope(b)
    ensures CrossX(a, b) == XAt(a, CrossY(a, b)) == XAt(b, CrossY(a, b))
  {
    CrossIsTheMeeting(a, b, CrossY(a, b));
  }

  lemma OutsideRows(a: Edge, b: Edge)
    requires Downward(a) && Downward(b) && InRange(a) && InRange(b) && Slope(a) != Slope(b)
    requires !(0.0 <= CrossY(a, b) < TWO31 as real && 0.0 <= CrossX(a, b) < TWO31 as real)
    ensures !StrictlyInside(a, CrossX(a, b), CrossY(a, b)) && !StrictlyInside(b, CrossX(a, b), CrossY(a, b))
  {
    CrossOnBoth(a, b);
    if StrictlyInside(a, CrossX(a, b), CrossY(a, b)) { InsideIsInRange(a, CrossY(a, b)); }
    if StrictlyInside(b, CrossX(a, b), CrossY(a, b)) { InsideIsInRange(b, CrossY(a, b)); }
  }

  // ---- What holds of every reported meeting, rounded or not ----

  // The stored point comes strictly before both bottoms in sweep order, at or
  // below both tops, and the lines are not parallel.
  lemma MeetIsBeforeBottoms(a: Edge, b: Edge)
    requires Downward(a) && Downward(b)
    requires EdgeIntersect(a, b).Meet?
    ensures var p := EdgeIntersect(a, b).at;
            && ComparePoints(p, a.bottom) < 0 && ComparePoints(p, b.bottom) < 0
            && a.top.y <= p.y && b.top.y <= p.y
    ensures Slope(a) != Slope(b)
  {
    DenominatorIsExact(a, b);
  }

  // ---- _cairo_bo_event_queue_insert_if_intersect_below_current_y ----

  // The meeting the caller queues for two neighbours, after the slope test.
  function MeetingBelow(left: Edge, right: Edge): Meeting {
    if SlopeCompare(left, right) < 0 then Apart else EdgeIntersect(left, right)
  }

  lemma MeetingBelowConverges(left: Edge, right: Edge)
    requires Downward(left) && Downward(right)
    requires MeetingBelow(left, right).Meet?
    ensures Slope(left) > Slope(right)
  {
    SlopeCompareIsExact(left, right);
    MeetIsBeforeBottoms(left, right);
  }

  // With left at or before right on row y, the slope test discards no crossing
  // strictly below that row, and what it lets through crosses at or below it.
  lemma PruningIsSound(left: Edge, right: Edge, y: real)
    requires Downward(left) && Downward(right)
    requires XAt(left, y) <= XAt(right, y)
    ensures SlopeCompare(left, right) < 0 ==> forall z :: z > y ==> XAt(left, z) < XAt(right, z)
    ensures SlopeCompare(left, right) > 0 ==> CrossY(left, right) >= y
  {
    hide Slope, XAt, CrossY;
    SlopeCompareIsExact(left, right);
    forall z | z > y && Slope(left) < Slope(right)
      ensures XAt(left, z) < XAt(right, z)
    {
      GapMoves(left, right, y, z);
    }
    if Slope(left) > Slope(right) {
      var c := CrossY(left, right);
      CrossIsTheMeeting(left, right, c);
      if c < y { GapMoves(left, right, c, y); }
    }
  }

  // In the caller's situation a meeting is queued exactly when the edges cross,
  // from left to right, strictly inside both.
  lemma MeetingBelowIsExact(left: Edge, right: Edge, y: real)
    requires Downward(left) && Downward(right) && InRange(left) && InRange(right)
    requires y >= 0.0 && XAt(left, y) <= XAt(right, y)
    ensures MeetingBelow(left, right).Meet? <==> Slope(left) > Slope(right) && CrossInside(left, right)
    ensures MeetingBelow(left, right).Meet? ==>
              MeetingBelow(left, right).at == Point(CrossX(left, right).Floor, CrossY(left, right).Floor)
  {
    SlopeCompareIsExact(left, right);
    PruningIsSound(left, right, y);
    if Slope(left) >= Slope(right) {
      MeetsIffInside(left, right);
    }
  }

  // ---- Where the containment test by itself is wrong ----

  lemma KnownEndDet(e: Edge, v: int)
    requires e.top.x * e.bottom.y - e.top.y * e.bottom.x == v
    ensures EndDet(e) == v
  {
  }

  lemma DetOfNegated(a: int, b: int, c: int, d: int)
    ensures Det(-a, -b, -c, -d) == a * d - b * c && Det(a, -b, c, -d) == c * b - a * d
  {
  }

  // The operands for two edges of widths wa, wb, heights ha, hb and known determinants.
  lemma KnownOperands(a: Edge, wa: int, ha: int, da: int, b: Edge, wb: int, hb: int, db: int)
    requires wa == a.bottom.x - a.top.x && ha == a.bottom.y - a.top.y && EndDet(a) == da
    requires wb == b.bottom.x - b.top.x && hb == b.bottom.y - b.top.y && EndDet(b) == db
    ensures NumeratorX(a, b) == db * wa - da * wb && NumeratorY(a, b) == db * ha - da * hb
    ensures Denominator(a, b) == wa * hb - ha * wb
  {
    hide EndDet, Det;
    DetOfNegated(wa, ha, wb, hb);
    DetOfNegated(da, wa, db, wb);
    DetOfNegated(da, ha, db, hb);
  }

  // The report for such edges.
  lemma ReportedFrom(a: Edge, wa: int, ha: int, da: int, b: Edge, wb: int, hb: int, db: int,
                     nx: int, ny: int, den: int, x: Ordinate, y: Ordinate)
    requires wa == a.bottom.x - a.top.x && ha == a.bottom.y - a.top.y && EndDet(a) == da
    requires wb == b.bottom.x - b.top.x && hb == b.bottom.y - b.top.y && EndDet(b) == db
    requires nx == db * wa - da * wb && ny == db * ha - da * hb && den == wa * hb - ha * wb
    requires den != 0
    requires DivRem(nx, den).rem != den && ToOrdinate(DivRem(nx, den)) == x
    requires DivRem(ny, den).rem != den && ToOrdinate(DivRem(ny, den)) == y
    requires Contains(a, x, y) && Contains(b, x, y)
    ensures NumeratorY(a, b) == ny && Denominator(a, b) == den
    ensures EdgeIntersect(a, b) == Meet(Point(x.value, y.value))
  {
    hide EndDet, DivRem, ToOrdinate, Contains, Denominator, NumeratorX, NumeratorY;
    KnownOperands(a, wa, ha, da, b, wb, hb, db);
  }

  // Truncation takes a crossing less than one row above row 0 for one below it.
  lemma MisjudgedJustAboveTheGrid(a: Edge, b: Edge)
    requires a.top == Point(1, 0) && a.bottom == Point(3, 1)
    requires b.top == Point(0, 0) && b.bottom == Point(0, 1)
    ensures Downward(a) && Downward(b) && InRange(a) && InRange(b)
    ensures EdgeIntersect(a, b) == Meet(Point(0, 0))
    ensures !CrossInside(a, b)
  {
    hide EndDet, Denominator, EdgeIntersect, CrossInside, NumeratorX, NumeratorY;
    KnownEndDet(a, 1);
    KnownEndDet(b, 0);
    ReportedFrom(a, 2, 1, 1, b, 0, 1, 0, 0, -1, 2, Ordinate(0, false), Ordinate(0, true));
    CrossAboveRowZero(a, b);
  }

  // The cast to 32 bits takes a crossing above row -2^31 for one far below row 0.
  lemma MisjudgedFarAboveTheGrid(a: Edge, b: Edge)
    requires a.top == Point(2, 0) && a.bottom == Point(3, 2_000_000_000)
    requires b.top == Point(0, 0) && b.bottom == Point(0, 2_000_000_000)
    ensures Downward(a) && Downward(b) && InRange(a) && InRange(b)
    ensures EdgeIntersect(a, b) == Meet(Point(0, 294_967_296))
    ensures !CrossInside(a, b)
  {
    hide EndDet, Denominator, EdgeIntersect, CrossInside, NumeratorX, NumeratorY;
    KnownEndDet(a, 4_000_000_000);
    KnownEndDet(b, 0);
    ReportedFrom(a, 1, 2_000_000_000, 4_000_000_000, b, 0, 2_000_000_000, 0,
                 0, -8_000_000_000_000_000_000, 2_000_000_000, Ordinate(0, false), Ordinate(294_967_296, false));
    CrossAboveRowZero(a, b);
  }

  lemma CrossAboveRowZero(a: Edge, b: Edge)
    requires Downward(a) && Downward(b) && InRange(a) && InRange(b)
    requires NumeratorY(a, b) < 0 < Denominator(a, b)
    ensures !CrossInside(a, b)
  {
    hide XAt, Slope, CrossX, CrossY, Denominator, NumeratorX, NumeratorY, StrictlyInside;
    DenominatorIsExact(a, b);
    NumeratorYIsExact(a, b);
    var y, d := CrossY(a, b), Denominator(a, b) as real;
    if y >= 0.0 { ProductSign(d, y); }
    OutsideRows(a, b);
  }

  // For crossings down from row -2^31 the first family is the only one: above row 0
  // a meeting is reported exactly when the crossing is less than a row away and both
  // edges start on row 0.
  lemma MisjudgedExactly(a: Edge, b: Edge)
    requires Downward(a) && Downward(b) && InRange(a) && InRange(b)
    requires Slope(a) != Slope(b) && -(TWO31 as real) <= CrossY(a, b) < 0.0
    ensures !CrossInside(a, b)
    ensures EdgeIntersect(a, b).Meet? <==> CrossY(a, b) > -1.0 && a.top.y == 0 && b.top.y == 0
  {
    hide XAt, Slope, CrossX, CrossY, EdgeIntersect, StrictlyInside, Seen;
    MisjudgedIff(a, b);
    OutsideRows(a, b);
    SeenByRange(CrossY(a, b));
    if CrossY(a, b) <= -1.0 {
      OffTheRows(a, Seen(CrossX(a, b)), Seen(CrossY(a, b)));
    } else {
      HalfInside(a, Seen(CrossX(a, b)));
      HalfInside(b, Seen(CrossX(a, b)));
      if a.top.y == 0 {
        NearTheTop(a, CrossY(a, b));
        CrossOnBoth(a, b);
      }
    }
  }

  lemma HalfInside(e: Edge, x: real)
    requires Downward(e) && InRange(e)
    ensures StrictlyInside(e, x, 0.5) <==> e.top.y == 0
  {
  }

  lemma NearTheTop(e: Edge, y: real)
    requires Downward(e) && InRange(e) && e.top.y == 0 && -1.0 < y < 0.0
    ensures -(TWO32 as real) < XAt(e, y) < TWO32 as real
  {
    var h, w, s := e.bottom.y - e.top.y, e.bottom.x - e.top.x, Slope(e);
    SlopeTimesHeight(e);
    assert -(TWO31 as real) < s < TWO31 as real by {
      BoundedBy(s, h, w);
    }
    ProductSign(-y, TWO31 as real - s);
    ProductSign(-y, TWO31 as real + s);
    assert -(TWO31 as real) < y * s < TWO31 as real;
  }

  lemma BoundedBy(s: real, h: int, w: int)
    requires h >= 1 && -TWO31 < w < TWO31 && s * h as real == w as real
    ensures -(TWO31 as real) < s < TWO31 as real
  {
    ProductSign(s - TWO31 as real, h as real - 1.0);
    ProductSign(-s - TWO31 as real, h as real - 1.0);
    ProductSign(h as real - 1.0, TWO31 as real);
  }

  // ---- What is reported, for all edges ----

  ghost predicate SeenInside(a: Edge, b: Edge)
    requires Downward(a) && Downward(b) && Slope(a) != Slope(b)
  {
    && Fits(CrossX(a, b)) && Fits(CrossY(a, b))
    && StrictlyInside(a, Seen(CrossX(a, b)), Seen(CrossY(a, b)))
    && StrictlyInside(b, Seen(CrossX(a, b)), Seen(CrossY(a, b)))
  }

  lemma ContainsWhatIsSeen(e: Edge, ox: Ordinate, oy: Ordinate, x: real, y: real)
    requires Downward(e)
    requires x == ox.value as real + (if ox.inexact then 0.5 else 0.0)
    requires y == oy.value as real + (if oy.inexact then 0.5 else 0.0)
    ensures Contains(e, ox, oy) <==> StrictlyInside(e, x, y)
  {
  }

  // For all edges: a meeting is reported if and only if the crossing, as truncation and
  // the cut to 32 bits make it seen, is strictly inside both.
  lemma MeetsIffSeenInside(a: Edge, b: Edge)
    requires Downward(a) && Downward(b)
    ensures EdgeIntersect(a, b).Meet? <==> Slope(a) != Slope(b) && SeenInside(a, b)
    ensures EdgeIntersect(a, b).Meet? ==>
              EdgeIntersect(a, b).at == Point(ToInt32(Truncated(CrossX(a, b))), ToInt32(Truncated(CrossY(a, b))))
  {
    hide XAt, Slope, CrossX, CrossY, Denominator, NumeratorX, NumeratorY, StrictlyInside, Contains, DivRem, Truncated,
         Fits, ToInt32;
    DenominatorIsExact(a, b);
    if Slope(a) != Slope(b) {
      var x, y, den := CrossX(a, b), CrossY(a, b), Denominator(a, b);
      NumeratorXIsExact(a, b);
      NumeratorYIsExact(a, b);
      QuotientIsSeen(NumeratorX(a, b), den, x);
      QuotientIsSeen(NumeratorY(a, b), den, y);
      if Fits(x) && Fits(y) {
        var ox, oy := ToOrdinate(DivRem(NumeratorX(a, b), den)), ToOrdinate(DivRem(NumeratorY(a, b), den));
        hide ToOrdinate;
        ContainsWhatIsSeen(a, ox, oy, Seen(x), Seen(y));
        ContainsWhatIsSeen(b, ox, oy, Seen(x), Seen(y));
      }
    }
  }

  // In range, every crossing inside both edges is reported, and a report is wrong if and
  // only if the crossing lies above row 0 and is seen inside both.
  lemma MisjudgedIff(a: Edge, b: Edge)
    requires Downward(a) && Downward(b) && InRange(a) && InRange(b) && Slope(a) != Slope(b)
    ensures CrossInside(a, b) ==> EdgeIntersect(a, b).Meet?
    ensures EdgeIntersect(a, b).Meet? && !CrossInside(a, b) <==> CrossY(a, b) < 0.0 && SeenInside(a, b)
  {
    hide XAt, Slope, CrossX, CrossY, EdgeIntersect, StrictlyInside, SeenInside;
    MeetsIffSeenInside(a, b);
    if CrossY(a, b) >= 0.0 { MeetsIffInside(a, b); } else { OutsideRows(a, b); }
  }

  // The crossings above row -2^31, exactly: reported if and only if both quotients are
  // below 2^32 and the crossing, moved down by 2^32, is inside both edges.
  lemma MisjudgedFarExactly(a: Edge, b: Edge)
    requires Downward(a) && Downward(b) && InRange(a) && InRange(b)
    requires Slope(a) != Slope(b) && CrossY(a, b) < -(TWO31 as real)
    ensures !CrossInside(a, b)
    ensures var w := CrossY(a, b) + TWO32 as real;
      var x, y := Seen(CrossX(a, b)), if w == w.Floor as real then w else w.Floor as real + 1.5;
      EdgeIntersect(a, b).Meet? <==>
        w > 0.0 && Fits(CrossX(a, b)) && StrictlyInside(a, x, y) && StrictlyInside(b, x, y)
  {
    hide XAt, Slope, CrossX, CrossY, EdgeIntersect, StrictlyInside, Seen;
    MeetsIffSeenInside(a, b);
    OutsideRows(a, b);
    var w := CrossY(a, b) + TWO32 as real;
    if Fits(CrossY(a, b)) {
      SeenByRange(CrossY(a, b));
      if CrossY(a, b) > -(TWO31 as real) - 1.0 {
        OffTheRows(a, Seen(CrossX(a, b)), Seen(CrossY(a, b)));
        OffTheRows(a, Seen(CrossX(a, b)), w.Floor as real + 1.5);
      }
    }
  }

  lemma OffTheRows(e: Edge, x: real, y: real)
    requires InRange(e) && (y < 0.0 || y >= TWO31 as real)
    ensures !StrictlyInside(e, x, y)
  {
  }

  // A reported point is on a row of the grid. It leaves the grid sideways if and only if
  // the column of the exact crossing is at or left of -1, down to -2^31 - 1, or beyond 2^31.
  lemma ReportedPointInGrid(a: Edge, b: Edge)
    requires Downward(a) && Downward(b) && InRange(a) && InRange(b) && EdgeIntersect(a, b).Meet?
    ensures Slope(a) != Slope(b) && 0 <= EdgeIntersect(a, b).at.y < TWO31
    ensures PointInRange(EdgeIntersect(a, b).at) <==>
              !(-(TWO31 as real) - 1.0 < CrossX(a, b) <= -1.0 || CrossX(a, b) >= TWO31 as real)
    ensures CrossInside(a, b) ==> PointInRange(EdgeIntersect(a, b).at)
  {
    hide XAt, Slope, CrossX, CrossY, EdgeIntersect;
    MeetsIffSeenInside(a, b);
    MeetIsBeforeBottoms(a, b);
    ColumnInGrid(CrossX(a, b));
    hide StrictlyInside;
    if CrossInside(a, b) {
      CrossOnBoth(a, b);
      InsideIsInRange(a, CrossY(a, b));
    }
  }

  lemma ColumnInGrid(v: real)
    requires Fits(v)
    ensures 0 <= ToInt32(Truncated(v)) < TWO31 <==> !(-(TWO31 as real) - 1.0 < v <= -1.0 || v >= TWO31 as real)
  {
    if v < 0.0 {
      var q := (-v).Floor;
      assert q as real <= -v < q as real + 1.0;
      NegativeToInt32(q);
    }
  }
}
