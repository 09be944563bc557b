// Arithmetic the comparators of the tessellator rest on: signs, and
// lexicographic comparison of keys.
module Arith {
  function Sign(v: int): int {
    if v < 0 then -1 else if v > 0 then 1 else 0
  }

  function SignOf(v: real): int {
    if v < 0.0 then -1 else if v > 0.0 then 1 else 0
  }

  function Min(a: int, b: int): int {
    if a <= b then a else b
  }

  lemma MulToReal(a: int, b: int)
    ensures (a * b) as real == (a as real) * (b as real)
  {
  }

  // Scaling by a positive factor keeps a sign.
  lemma SignScaled(p: real, d: real)
    requires p > 0.0
    ensures SignOf(p * d) == SignOf(d)
  {
  }

  lemma ProductSign(p: real, s: real)
    ensures p >= 0.0 && s >= 0.0 ==> p * s >= 0.0
    ensures p >= 0.0 && s <= 0.0 ==> p * s <= 0.0
    ensures p > 0.0 && s > 0.0 ==> p * s > 0.0
    ensures p > 0.0 && s < 0.0 ==> p * s < 0.0
  {
  }

  // ---- Lexicographic comparison: the reference order for every comparator ----

  function LexCompare(a: seq<real>, b: seq<real>): int {
    if a == [] && b == [] then 0
    else if a == [] then -1
    else if b == [] then 1
    else if a[0] < b[0] then -1
    else if a[0] > b[0] then 1
    else LexCompare(a[1..], b[1..])
  }

  lemma {:induction false} LexAntisymmetric(a: seq<real>, b: seq<real>)
    ensures LexCompare(a, b) == -LexCompare(b, a)
    decreases |a|
  {
    if a != [] && b != [] {
      LexAntisymmetric(a[1..], b[1..]);
    }
  }

  lemma {:induction false} LexZero(a: seq<real>, b: seq<real>)
    ensures LexCompare(a, b) == 0 <==> a == b
    decreases |a|
  {
    if a != [] && b != [] {
      LexZero(a[1..], b[1..]);
      assert a == [a[0]] + a[1..] && b == [b[0]] + b[1..];
    }
  }

  lemma {:induction false} LexTransitive(a: seq<real>, b: seq<real>, c: seq<real>)
    requires LexCompare(a, b) <= 0 && LexCompare(b, c) <= 0
    ensures LexCompare(a, c) <= 0
    ensures LexCompare(a, b) < 0 || LexCompare(b, c) < 0 ==> LexCompare(a, c) < 0
    decreases |a|
  {
    if a != [] && b != [] && c != [] && a[0] == b[0] && b[0] == c[0] {
      LexTransitive(a[1..], b[1..], c[1..]);
    }
  }

  lemma LexStep(a: seq<real>, b: seq<real>)
    requires |a| > 0 && |b| > 0
    ensures LexCompare(a, b) == if a[0] != b[0] then SignOf(a[0] - b[0]) else LexCompare(a[1..], b[1..])
  {
  }

  // Two keys of one length first differ at position k, or not at all.
  lemma {:induction false} LexDecides(a: seq<real>, b: seq<real>, k: nat)
    requires k < |a| && k < |b| && a[..k] == b[..k] && a[k] != b[k]
    ensures LexCompare(a, b) == SignOf(a[k] - b[k])
    decreases k
  {
    LexStep(a, b);
    if k > 0 {
      assert a[0] == a[..k][0] == b[..k][0] == b[0];
      assert a[1..][..k - 1] == a[..k][1..] == b[..k][1..] == b[1..][..k - 1];
      LexDecides(a[1..], b[1..], k - 1);
    }
  }

  ghost function FirstDifference(a: seq<real>, b: seq<real>): (k: nat)
    requires |a| == |b| && a != b
    ensures k < |a| && a[k] != b[k] && a[..k] == b[..k]
    ensures forall i :: 0 <= i < k ==> a[i] == b[i]
  {
    if a[0] != b[0] then 0
    else
      assert a == [a[0]] + a[1..] && b == [b[0]] + b[1..];
      var k := 1 + FirstDifference(a[1..], b[1..]);
      assert forall i :: 1 <= i < k ==> a[i] == a[1..][i - 1] == b[1..][i - 1] == b[i];
      k
  }
}
