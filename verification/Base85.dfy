// The base-85 encoder (cairo-base85-stream.c, lines 40-132), against a decoder
// written from section 7.4.3 of ISO 32000-1 (ASCII85Decode).
module Base85 {
  type Byte = v: int | 0 <= v < 256

  const TWO32: int := 0x1_0000_0000
  const BANG: Byte := 33
  const LETTER_U: Byte := 117
  const LETTER_Z: Byte := 122
  const TILDE: Byte := 126
  const GREATER: Byte := 62

  // ---- Positional numbers ----

  function Pow(base: nat, n: nat): nat {
    if n == 0 then 1 else base * Pow(base, n - 1)
  }

  predicate AreDigits(base: nat, d: seq<nat>) {
    forall i :: 0 <= i < |d| ==> d[i] < base
  }

  function Quotient(v: nat, m: nat): (q: nat)
    requires m > 0
  {
    v / m
  }

  function Remainder(v: nat, m: nat): (r: nat)
    requires m > 0
    ensures r < m
  {
    v % m
  }

  // The n low digits of v, most significant first.
  function Digits(base: nat, v: nat, n: nat): (d: seq<nat>)
    requires base > 0
    ensures |d| == n && AreDigits(base, d)
    decreases n
  {
    if n == 0 then [] else
      var d := Digits(base, Quotient(v, base), n - 1);
      var r := Remainder(v, base);
      d + [r]
  }

  function Number(base: nat, d: seq<nat>): nat {
    if d == [] then 0 else base * Number(base, d[..|d| - 1]) + d[|d| - 1]
  }

  lemma Divided(v: nat, m: nat)
    requires m > 0
    ensures v == m * Quotient(v, m) + Remainder(v, m)
  {
  }

  lemma QuotientIs(v: nat, m: nat, q: nat, r: nat)
    requires v == m * q + r && r < m
    ensures Quotient(v, m) == q && Remainder(v, m) == r
  {
    Divided(v, m);
    var q', r' := Quotient(v, m), Remainder(v, m);
    hide Quotient, Remainder;
    if q' > q { LessTimes(q, q', m); }
    if q' < q { LessTimes(q', q, m); }
  }

  lemma LessTimes(a: nat, b: nat, m: nat)
    requires a < b
    ensures m * a + m <= m * b
  {
    var c := b - a - 1;
    assert m * b == m * a + m + m * c;
  }

  // a < b in every place when the quotients are.
  lemma QuotientBelow(v: nat, m: nat, b: nat)
    requires m > 0 && v < m * b
    ensures Quotient(v, m) < b
  {
    Divided(v, m);
    hide Quotient, Remainder;
    if Quotient(v, m) >= b && Quotient(v, m) > 0 {
      LessTimes(b, Quotient(v, m) + 1, m);
    }
  }

  lemma {:induction false} PowPositive(base: nat, n: nat)
    requires base > 0
    ensures Pow(base, n) > 0
  {
    if n > 0 {
      PowPositive(base, n - 1);
    }
  }

  lemma Associates(a: nat, b: nat, c: nat)
    ensures a * (b * c) == (a * b) * c
  {
  }

  lemma {:induction false} PowAdds(base: nat, m: nat, n: nat)
    ensures Pow(base, m + n) == Pow(base, m) * Pow(base, n)
  {
    if m > 0 {
      PowAdds(base, m - 1, n);
      Associates(base, Pow(base, m - 1), Pow(base, n));
    }
  }

  lemma {:induction false} NumberOfDigits(base: nat, v: nat, n: nat)
    requires base > 0 && v < Pow(base, n)
    ensures Number(base, Digits(base, v, n)) == v
    decreases n
  {
    hide Quotient, Remainder;
    if n > 0 {
      QuotientBelow(v, base, Pow(base, n - 1));
      NumberOfDigits(base, Quotient(v, base), n - 1);
      var d := Digits(base, v, n);
      assert d[..n - 1] == Digits(base, Quotient(v, base), n - 1);
      Divided(v, base);
    }
  }

  lemma {:induction false} DigitsOfNumber(base: nat, d: seq<nat>)
    requires base > 0 && AreDigits(base, d)
    ensures Digits(base, Number(base, d), |d|) == d
    ensures Number(base, d) < Pow(base, |d|)
  {
    hide Quotient, Remainder;
    if d != [] {
      var n := |d| - 1;
      var q := Number(base, d[..n]);
      DigitsOfNumber(base, d[..n]);
      QuotientIs(Number(base, d), base, q, d[n]);
      assert d == d[..n] + [d[n]];
      LessTimes(q, Pow(base, n), base);
    }
  }

  // The low digits do not matter to the high ones.
  lemma {:induction false} HighDigits(base: nat, v: nat, n: nat, k: nat)
    requires base > 0 && k <= n
    ensures Pow(base, n - k) > 0
    ensures Digits(base, v, n)[..k] == Digits(base, Quotient(v, Pow(base, n - k)), k)
    decreases n
  {
    PowPositive(base, n - k);
    if k < n {
      hide Quotient, Remainder;
      var q := Quotient(v, base);
      HighDigits(base, q, n - 1, k);
      DivideTwice(v, base, Pow(base, n - 1 - k));
      assert Digits(base, v, n)[..k] == Digits(base, q, n - 1)[..k];
    } else {
      QuotientIs(v, 1, v, 0);
      assert Digits(base, v, n)[..k] == Digits(base, v, n);
    }
  }

  lemma DivideTwice(v: nat, b: nat, p: nat)
    requires p > 0 && b > 0 && b * p > 0
    ensures Quotient(Quotient(v, b), p) == Quotient(v, b * p)
  {
    var a, r := Quotient(v, b), Remainder(v, b);
    var q, s := Quotient(a, p), Remainder(a, p);
    Divided(v, b);
    Divided(a, p);
    hide Quotient, Remainder;
    Associates(b, p, q);
    LessTimes(s, p, b);
    QuotientIs(v, b * p, q, b * s + r);
  }

  lemma NumberAppend(base: nat, d: seq<nat>, x: nat)
    ensures Number(base, d + [x]) == base * Number(base, d) + x
  {
    assert (d + [x])[..|d|] == d;
  }

  // Digits appended: all zeros, or all the greatest digit.
  lemma {:induction false} AppendSame(base: nat, d: seq<nat>, k: nat, c: nat)
    requires base > 0 && (c == 0 || c == base - 1)
    ensures Number(base, d + seq(k, _ => c))
         == Pow(base, k) * Number(base, d) + if c == 0 then 0 else Pow(base, k) - 1
  {
    hide Number;
    var n, s := Number(base, d), d + seq(k, _ => c);
    if k == 0 {
      assert s == d;
    } else {
      AppendSame(base, d, k - 1, c);
      var t := d + seq(k - 1, _ => c);
      assert s == t + [c];
      NumberAppend(base, t, c);
      PowPositive(base, k - 1);
      OneMoreDigit(base, Pow(base, k - 1), n, c);
    }
  }

  lemma OneMoreDigit(base: nat, p: nat, n: nat, c: nat)
    requires p > 0
    ensures base * (p * n) == (base * p) * n
    ensures c == base - 1 ==> base * (p * n + p - 1) + c == (base * p) * n + base * p - 1
  {
    Associates(base, p, n);
    if c == base - 1 { assert base * (p * n + (p - 1)) == base * (p * n) + base * (p - 1); }
  }

  // ---- Groups of four bytes ----

  function Value(b: seq<Byte>): nat
    requires |b| == 4
  {
    Number(256, b)
  }

  // b0 << 24 | b1 << 16 | b2 << 8 | b3
  function Joined(b0: Byte, b1: Byte, b2: Byte, b3: Byte): nat {
    (b0 as int) * 0x100_0000 + (b1 as int) * 0x1_0000 + (b2 as int) * 0x100 + b3
  }

  lemma ShiftedBytes(b: seq<Byte>)
    requires |b| == 4
    ensures Value(b) == Joined(b[0], b[1], b[2], b[3])
  {
    assert b[..3][..2] == b[..2] && b[..2][..1] == b[..1] && b[..1][..0] == [];
    assert Number(256, b[..1]) == b[0];
    assert Number(256, b[..2]) == 0x100 * (b[0] as int) + b[1];
    assert Number(256, b[..3]) == 0x100 * Number(256, b[..2]) + b[2];
  }

  function ToBytes(v: nat): (b: seq<Byte>)
    ensures |b| == 4
  {
    Digits(256, v, 4)
  }

  lemma PowersOf85And256()
    ensures Pow(85, 0) == 1 && Pow(85, 1) == 85 && Pow(85, 2) == 7225 && Pow(85, 3) == 614125
    ensures Pow(85, 4) == 52200625 && Pow(85, 5) == 4437053125
    ensures Pow(256, 1) == 0x100 && Pow(256, 2) == 0x1_0000 && Pow(256, 3) == 0x100_0000 && Pow(256, 4) == TWO32
  {
    assert Pow(85, 2) == 85 * Pow(85, 1) && Pow(256, 2) == 256 * Pow(256, 1);
    assert Pow(85, 3) == 85 * Pow(85, 2) && Pow(256, 3) == 256 * Pow(256, 2);
    assert Pow(85, 4) == 85 * Pow(85, 3) && Pow(256, 4) == 256 * Pow(256, 3);
    assert Pow(85, 5) == 85 * Pow(85, 4);
  }

  lemma BytesOfValue(b: seq<Byte>)
    requires |b| == 4
    ensures Value(b) < TWO32 && ToBytes(Value(b)) == b
  {
    DigitsOfNumber(256, b);
    PowersOf85And256();
  }

  // ---- _expand_four_tuple_to_five ----

  function ToChars(d: seq<nat>): (c: seq<Byte>)
    requires AreDigits(85, d)
    ensures |c| == |d|
  {
    seq(|d|, i requires 0 <= i < |d| => d[i] + 33)
  }

  lemma LowestDigit(v: nat, n: nat)
    requires n > 0
    ensures Digits(85, v, n) == Digits(85, Quotient(v, 85), n - 1) + [Remainder(v, 85)]
    ensures v < Pow(85, n) ==> Quotient(v, 85) < Pow(85, n - 1)
    ensures v == 0 <==> Quotient(v, 85) == 0 && Remainder(v, 85) == 0
  {
    if v < Pow(85, n) { QuotientBelow(v, 85, Pow(85, n - 1)); }
  }

  // One turn of the loop peels the digit at place n off v's value so far.
  lemma Peel(v: nat, value: nat, n: nat)
    requires n < 5 && value < Pow(85, n + 1) && Digits(85, v, 5)[..n + 1] == Digits(85, value, n + 1)
    ensures Quotient(value, 85) < Pow(85, n) && Digits(85, v, 5)[..n] == Digits(85, Quotient(value, 85), n)
    ensures ToChars(Digits(85, v, 5))[n] == Remainder(value, 85) + 33
    ensures value == 0 <==> Quotient(value, 85) == 0 && Remainder(value, 85) == 0
  {
    hide Digits, Quotient, Remainder;
    LowestDigit(value, n + 1);
    var all := Digits(85, v, 5);
    assert all[n] == all[..n + 1][n];
    assert all[..n] == all[..n + 1][..n];
  }

  lemma StartsInRange(b: seq<Byte>)
    requires |b| == 4
    ensures Joined(b[0], b[1], b[2], b[3]) == Value(b) < Pow(85, 5)
  {
    ShiftedBytes(b);
    BytesOfValue(b);
    PowersOf85And256();
  }

  // The digits are peeled off from the low end.
  method ExpandFourTupleToFive(four: array<Byte>, five: array<Byte>) returns (allZero: bool)
    requires four.Length == 4 && five.Length == 5
    modifies five
    ensures five[..] == ToChars(Digits(85, Value(four[..]), 5))
    ensures allZero <==> Value(four[..]) == 0
  {
    hide Value, Joined, Pow, Digits, Quotient, Remainder, ToChars;
    ghost var v := Value(four[..]);
    ghost var chars := ToChars(Digits(85, v, 5));
    StartsInRange(four[..]);
    var value: nat := Joined(four[0], four[1], four[2], four[3]);
    allZero := true;
    for i := 0 to 5
      invariant value < Pow(85, 5 - i) && Digits(85, v, 5)[..5 - i] == Digits(85, value, 5 - i)
      invariant five[5 - i..] == chars[5 - i..]
      invariant value == 0 && allZero <==> v == 0
    {
      Peel(v, value, 4 - i);
      var digit := Remainder(value, 85);
      if digit != 0 { allZero := false; }
      five[4 - i] := digit + 33;
      assert five[4 - i..] == [chars[4 - i]] + five[5 - i..];
      value := Quotient(value, 85);
    }
    NoDigits(value);
  }

  lemma NoDigits(v: nat)
    ensures v < Pow(85, 0) <==> v == 0
  {
  }

  // ---- The encoder as a value ----

  // What has been written to the output, and the bytes of the unfinished group.
  datatype Encoder = Encoder(out: seq<Byte>, tuple: seq<Byte>)

  function Group(b: seq<Byte>): seq<Byte>
    requires |b| == 4
  {
    if Value(b) == 0 then [LETTER_Z] else ToChars(Digits(85, Value(b), 5))
  }

  function Push(e: Encoder, b: Byte): (r: Encoder)
    requires |e.tuple| < 4
    ensures |r.tuple| < 4
  {
    if |e.tuple| == 3 then Encoder(e.out + Group(e.tuple + [b]), []) else e.(tuple := e.tuple + [b])
  }

  function Feed(e: Encoder, data: seq<Byte>): (r: Encoder)
    requires |e.tuple| < 4
    ensures |r.tuple| < 4
  {
    if data == [] then e else Push(Feed(e, data[..|data| - 1]), data[|data| - 1])
  }

  function Padded(tuple: seq<Byte>): seq<Byte>
    requires |tuple| < 4
  {
    tuple + seq(4 - |tuple|, _ => 0)
  }

  function Partial(tuple: seq<Byte>): seq<Byte>
    requires |tuple| < 4
  {
    if tuple == [] then [] else ToChars(Digits(85, Value(Padded(tuple)), 5))[..|tuple| + 1]
  }

  function Finish(e: Encoder): seq<Byte>
    requires |e.tuple| < 4
  {
    e.out + Partial(e.tuple) + [TILDE, GREATER]
  }

  // cairo_base85_stream_t
  class Base85Stream {
    const fourTuple: array<Byte>
    var pending: nat
    var output: seq<Byte>

    ghost predicate Valid()
      reads this
    {
      fourTuple.Length == 4 && pending < 4
    }

    ghost function Contents(): (e: Encoder)
      reads this, fourTuple
      requires Valid()
      ensures |e.tuple| < 4
    {
      Encoder(output, fourTuple[..pending])
    }

    // _cairo_base85_stream_create, on an output that holds `output` already
    constructor (output: seq<Byte>)
      ensures Valid() && fresh(fourTuple) && Contents() == Encoder(output, [])
    {
      fourTuple := new Byte[4](_ => 0);
      pending := 0;
      this.output := output;
    }

    // _cairo_base85_stream_write
    method Write(data: seq<Byte>)
      requires Valid()
      modifies this, fourTuple
      ensures Valid() && Contents() == Feed(old(Contents()), data)
    {
      var fiveTuple := new Byte[5](_ => 0);
      for i := 0 to |data|
        invariant Valid() && Contents() == Feed(old(Contents()), data[..i])
      {
        assert data[..i + 1][..i] == data[..i];
        ghost var before := Contents();
        fourTuple[pending] := data[i];
        pending := pending + 1;
        assert fourTuple[..pending] == before.tuple + [data[i]];
        if pending == 4 {
          assert fourTuple[..] == before.tuple + [data[i]];
          var isZero := ExpandFourTupleToFive(fourTuple, fiveTuple);
          if isZero { output := output + [LETTER_Z]; } else { output := output + fiveTuple[..]; }
          pending := 0;
        }
      }
      assert data[..|data|] == data;
    }

    // _cairo_base85_stream_close
    method Close()
      requires Valid()
      modifies this, fourTuple
      ensures output == Finish(old(Contents()))
    {
      ghost var tuple, before := fourTuple[..pending], output;
      if pending != 0 {
        var i := pending;
        while i < 4
          invariant pending == |tuple| <= i <= 4 && fourTuple[..pending] == tuple && output == before
          invariant forall j :: pending <= j < i ==> fourTuple[j] == 0
        {
          fourTuple[i] := 0;
          i := i + 1;
        }
        assert fourTuple[..] == Padded(tuple);
        var fiveTuple := new Byte[5](_ => 0);
        var isZero := ExpandFourTupleToFive(fourTuple, fiveTuple);
        assert fiveTuple[..pending + 1] == fiveTuple[..][..pending + 1];
        output := output + fiveTuple[..pending + 1];
      }
      assert output == before + Partial(tuple);
      output := output + [TILDE, GREATER];
    }
  }

  // ---- Only the concatenation counts ----

  lemma {:induction false} FeedSplits(e: Encoder, a: seq<Byte>, b: seq<Byte>)
    requires |e.tuple| < 4
    ensures Feed(Feed(e, a), b) == Feed(e, a + b)
    decreases |b|
  {
    if b == [] {
      assert a + b == a;
    } else {
      FeedSplits(e, a, b[..|b| - 1]);
      assert (a + b)[..|a + b| - 1] == a + b[..|b| - 1];
    }
  }

  function Concat(writes: seq<seq<Byte>>): seq<Byte> {
    if writes == [] then [] else Concat(writes[..|writes| - 1]) + writes[|writes| - 1]
  }

  function FeedAll(e: Encoder, writes: seq<seq<Byte>>): (r: Encoder)
    requires |e.tuple| < 4
    ensures |r.tuple| < 4
  {
    if writes == [] then e else Feed(FeedAll(e, writes[..|writes| - 1]), writes[|writes| - 1])
  }

  lemma {:induction false} OnlyConcatenationCounts(e: Encoder, writes: seq<seq<Byte>>)
    requires |e.tuple| < 4
    ensures FeedAll(e, writes) == Feed(e, Concat(writes))
  {
    if writes != [] {
      var n := |writes| - 1;
      OnlyConcatenationCounts(e, writes[..n]);
      FeedSplits(e, Concat(writes[..n]), writes[n]);
    }
  }

  // ---- The encoding group by group ----

  function Encode(data: seq<Byte>): seq<Byte> {
    if |data| < 4 then Partial(data) + [TILDE, GREATER] else Group(data[..4]) + Encode(data[4..])
  }

  lemma LastAppended<T>(s: seq<T>)
    requires s != []
    ensures s == s[..|s| - 1] + [s[|s| - 1]]
  {
  }

  lemma FeedTuple(out: seq<Byte>, data: seq<Byte>)
    requires |data| <= 4
    ensures Feed(Encoder(out, []), data) == if |data| < 4 then Encoder(out, data) else Encoder(out + Group(data), [])
    decreases |data|
  {
    hide Group;
    if data != [] {
      var n := |data| - 1;
      var b := data[n];
      FeedTuple(out, data[..n]);
      LastAppended(data);
      assert Feed(Encoder(out, []), data) == Push(Encoder(out, data[..n]), b);
    }
  }

  lemma {:induction false} FeedIsEncode(out: seq<Byte>, data: seq<Byte>)
    ensures Finish(Feed(Encoder(out, []), data)) == out + Encode(data)
    decreases |data|
  {
    hide Group, Partial, Feed;
    if |data| < 4 {
      FeedTuple(out, data);
    } else {
      FeedTuple(out, data[..4]);
      FeedSplits(Encoder(out, []), data[..4], data[4..]);
      assert data[..4] + data[4..] == data;
      FeedIsEncode(out + Group(data[..4]), data[4..]);
    }
  }

  // ---- ASCII85Decode ----

  datatype Decoded = Malformed | Data(bytes: seq<Byte>)

  predicate IsWhite(c: Byte) {
    c == 0 || c == 9 || c == 10 || c == 12 || c == 13 || c == 32
  }

  // White-space characters are ignored.
  function Significant(s: seq<Byte>): seq<Byte> {
    if s == [] then [] else (if IsWhite(s[0]) then [] else [s[0]]) + Significant(s[1..])
  }

  predicate IsDigit(c: Byte) {
    BANG <= c <= LETTER_U
  }

  predicate AtEnd(s: seq<Byte>) {
    |s| >= 2 && s[0] == TILDE && s[1] == GREATER
  }

  // How many of the next five characters are digits.
  function Run(s: seq<Byte>, most: nat): (n: nat)
    ensures n <= most && n <= |s|
  {
    if most == 0 || s == [] || !IsDigit(s[0]) then 0 else 1 + Run(s[1..], most - 1)
  }

  function CharValue(c: Byte): (d: nat)
    requires IsDigit(c)
  {
    (c as int) - 33
  }

  function FromChars(s: seq<Byte>): (d: seq<nat>)
    requires forall i :: 0 <= i < |s| ==> IsDigit(s[i])
  {
    seq(|s|, i requires 0 <= i < |s| => CharValue(s[i]))
  }

  function After(front: seq<Byte>, rest: Decoded): Decoded {
    if rest.Malformed? then Malformed else Data(front + rest.bytes)
  }

  lemma {:induction false} RunIsDigits(s: seq<Byte>, most: nat)
    ensures forall i :: 0 <= i < Run(s, most) ==> IsDigit(s[i])
    ensures Run(s, most) < most && Run(s, most) < |s| ==> !IsDigit(s[Run(s, most)])
  {
    if !(most == 0 || s == [] || !IsDigit(s[0])) {
      RunIsDigits(s[1..], most - 1);
      assert forall i :: 1 <= i < Run(s, most) ==> s[i] == s[1..][i - 1];
    }
  }

  // Five digits stand for four bytes, z for four zero bytes; a last group of n + 1
  // digits, completed with the greatest digit, stands for n bytes.
  function DecodeGroups(s: seq<Byte>): Decoded
    decreases |s|
  {
    if AtEnd(s) then Data([])
    else if s != [] && s[0] == LETTER_Z then After([0, 0, 0, 0], DecodeGroups(s[1..]))
    else
      var n := Run(s, 5);
      RunIsDigits(s, 5);
      if n == 5 then
        var v := Number(85, FromChars(s[..5]));
        if v >= TWO32 then Malformed else After(ToBytes(v), DecodeGroups(s[5..]))
      else if n >= 2 && AtEnd(s[n..]) then
        var v := Number(85, FromChars(s[..n]) + seq(5 - n, _ => 84));
        if v >= TWO32 then Malformed else Data(ToBytes(v)[..n - 1])
      else Malformed
  }

  function Decode(s: seq<Byte>): Decoded {
    DecodeGroups(Significant(s))
  }

  // ---- The round trip ----

  lemma CharsBack(d: seq<nat>)
    requires AreDigits(85, d)
    ensures forall i :: 0 <= i < |d| ==> IsDigit(ToChars(d)[i])
    ensures FromChars(ToChars(d)) == d
  {
  }

  lemma {:induction false} RunOfDigits(c: seq<Byte>, rest: seq<Byte>, most: nat)
    requires forall i :: 0 <= i < |c| ==> IsDigit(c[i])
    requires |c| == most || (|c| < most && AtEnd(rest))
    ensures Run(c + rest, most) == |c|
    decreases |c|
  {
    if c != [] {
      RunOfDigits(c[1..], rest, most - 1);
      assert (c + rest)[1..] == c[1..] + rest;
    }
  }

  lemma AllZero(b: seq<Byte>)
    requires |b| == 4 && Value(b) == 0
    ensures b == [0, 0, 0, 0]
  {
    hide Value, ToBytes;
    var z: seq<Byte> := [0, 0, 0, 0];
    ShiftedBytes(z);
    BytesOfValue(z);
    BytesOfValue(b);
  }

  lemma ZeroValue(b: seq<Byte>)
    requires b == [0, 0, 0, 0]
    ensures Value(b) == 0
  {
    hide Value;
    ShiftedBytes(b);
  }

  lemma DecodeFullGroup(b: seq<Byte>, rest: seq<Byte>)
    requires |b| == 4
    ensures DecodeGroups(Group(b) + rest) == After(b, DecodeGroups(rest))
    ensures Group(b) == [LETTER_Z] <==> b == [0, 0, 0, 0]
    ensures Group(b) != [LETTER_Z] ==> |Group(b)| == 5
  {
    hide Number, Digits, Pow;
    var v := Value(b);
    BytesOfValue(b);
    if b == [0, 0, 0, 0] { ZeroValue(b); }
    if v == 0 {
      AllZero(b);
      assert ([LETTER_Z] + rest)[1..] == rest;
    } else {
      var c := ToChars(Digits(85, v, 5));
      CharsBack(Digits(85, v, 5));
      PowersOf85And256();
      NumberOfDigits(85, v, 5);
      RunOfDigits(c, rest, 5);
      var s := c + rest;
      assert s[..5] == c && s[5..] == rest;
    }
  }

  // The high bytes of a number are those of any number that lies less than one unit of
  // their place above it.
  lemma SameHighBytes(tuple: seq<Byte>, w: nat)
    requires 0 < |tuple| < 4
    requires Value(Padded(tuple)) <= w < Value(Padded(tuple)) + Pow(256, 4 - |tuple|)
    ensures w < TWO32 && ToBytes(w)[..|tuple|] == tuple
  {
    hide Quotient, Remainder, Number, Digits, Pow;
    var n, t, p := |tuple|, Number(256, tuple), Pow(256, 4 - |tuple|);
    AppendSame(256, tuple, 4 - n, 0);
    DigitsOfNumber(256, tuple);
    QuotientIs(w, p, t, w - p * t);
    HighDigits(256, w, 4, n);
    LessTimes(t, Pow(256, n), p);
    PowAdds(256, 4 - n, n);
    PowersOf85And256();
  }

  // The high digits of v, completed with the greatest digit.
  lemma CompletedDigits(v: nat, n: nat)
    requires v < TWO32 && 0 < n < 4
    ensures var w := Number(85, Digits(85, v, 5)[..n + 1] + seq(4 - n, _ => 84));
      v <= w < v + Pow(85, 4 - n)
  {
    hide Quotient, Remainder;
    var p := Pow(85, 4 - n);
    PowersOf85And256();
    var q := Quotient(v, p);
    HighDigits(85, v, 5, n + 1);
    AppendSame(85, Digits(85, q, n + 1), 4 - n, 84);
    PowAdds(85, 4 - n, n + 1);
    QuotientBelow(v, p, Pow(85, n + 1));
    NumberOfDigits(85, q, n + 1);
    Divided(v, p);
  }

  lemma DecodePartial(tuple: seq<Byte>)
    requires 0 < |tuple| < 4
    ensures DecodeGroups(Partial(tuple) + [TILDE, GREATER]) == Data(tuple)
    ensures |Partial(tuple)| == |tuple| + 1
  {
    hide Number, Digits, Pow;
    var n, v := |tuple|, Value(Padded(tuple));
    var high := Digits(85, v, 5)[..n + 1];
    var c := Partial(tuple);
    BytesOfValue(Padded(tuple));
    assert c == ToChars(high);
    CharsBack(high);
    RunOfDigits(c, [TILDE, GREATER], 5);
    var s := c + [TILDE, GREATER];
    assert s[..n + 1] == c && s[n + 1..] == [TILDE, GREATER];
    CompletedDigits(v, n);
    PowersOf85And256();
    SameHighBytes(tuple, Number(85, high + seq(4 - n, _ => 84)));
  }

  lemma {:induction false} DecodeEncode(data: seq<Byte>)
    ensures DecodeGroups(Encode(data)) == Data(data)
    decreases |data|
  {
    if data == [] {
      assert Encode(data) == [TILDE, GREATER];
    } else if |data| < 4 {
      hide Partial;
      DecodePartial(data);
    } else {
      hide Group;
      DecodeEncode(data[4..]);
      DecodeFullGroup(data[..4], Encode(data[4..]));
      assert data[..4] + data[4..] == data;
    }
  }

  predicate Printable(s: seq<Byte>) {
    forall i :: 0 <= i < |s| ==> IsDigit(s[i]) || s[i] == LETTER_Z
  }

  // The end marker comes last and nowhere else; all before it are digits and z.
  lemma {:induction false} EndMarkerOnlyAtEnd(data: seq<Byte>)
    ensures var s, n := Encode(data), |Encode(data)|;
      n >= 2 && Printable(s[..n - 2]) && s[n - 2] == TILDE && s[n - 1] == GREATER
    decreases |data|
  {
    hide Digits, Number, ToChars;
    if |data| >= 4 {
      var r := Encode(data[4..]);
      EndMarkerOnlyAtEnd(data[4..]);
      CharsBack(Digits(85, Value(data[..4]), 5));
      var s := Encode(data);
      assert s[..|s| - 2] == Group(data[..4]) + r[..|r| - 2];
    } else if data != [] {
      CharsBack(Digits(85, Value(Padded(data)), 5));
      var s := Encode(data);
      assert s[..|s| - 2] == Partial(data);
    } else {
      assert Encode(data) == [TILDE, GREATER];
    }
  }

  lemma {:induction false} NothingToIgnore(s: seq<Byte>)
    requires forall i :: 0 <= i < |s| ==> !IsWhite(s[i])
    ensures Significant(s) == s
  {
    if s != [] {
      NothingToIgnore(s[1..]);
    }
  }

  // For every data and every way of splitting it across writes, the closed stream
  // decodes to the data, also when white space is put into it later.
  lemma RoundTrip(writes: seq<seq<Byte>>, s: seq<Byte>)
    requires Significant(s) == Significant(Finish(FeedAll(Encoder([], []), writes)))
    ensures Decode(s) == Data(Concat(writes))
    ensures Finish(FeedAll(Encoder([], []), writes)) == Encode(Concat(writes))
  {
    hide Feed, FeedAll, Finish, Encode, DecodeGroups, Concat, Significant;
    var data := Concat(writes);
    OnlyConcatenationCounts(Encoder([], []), writes);
    FeedIsEncode([], data);
    var e := Encode(data);
    assert [] + e == e;
    EndMarkerOnlyAtEnd(data);
    forall i | 0 <= i < |e| ensures !IsWhite(e[i]) {
      if i < |e| - 2 { assert e[i] == e[..|e| - 2][i]; }
    }
    NothingToIgnore(e);
    DecodeEncode(data);
  }
}
