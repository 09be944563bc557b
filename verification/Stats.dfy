// Outlier trimming by quartile fences (perf/cairo-stats.c, lines 28-92). Fences are
// kept at twice their value, so that they are whole numbers.
module Stats {
  type Ticks = int

  predicate Ascending(s: seq<Ticks>) {
    forall i, j :: 0 <= i <= j < |s| ==> s[i] <= s[j]
  }

  // qsort by _cairo_perf_ticks_cmp: equal ticks are alike, so one result is possible.
  function InsertTick(s: seq<Ticks>, v: Ticks): seq<Ticks> {
    if s == [] || v <= s[0] then [v] + s else [s[0]] + InsertTick(s[1..], v)
  }

  function SortTicks(s: seq<Ticks>): seq<Ticks> {
    if s == [] then [] else InsertTick(SortTicks(s[1..]), s[0])
  }

  lemma Prepend(x: Ticks, s: seq<Ticks>)
    requires Ascending(s) && forall i :: 0 <= i < |s| ==> x <= s[i]
    ensures Ascending([x] + s) && multiset([x] + s) == multiset{x} + multiset(s)
  {
  }

  lemma Headed(s: seq<Ticks>)
    requires s != [] && Ascending(s)
    ensures s == [s[0]] + s[1..] && Ascending(s[1..]) && multiset(s) == multiset{s[0]} + multiset(s[1..])
    ensures forall i :: 0 <= i < |s| ==> s[0] <= s[i]
  {
    assert s == [s[0]] + s[1..];
  }

  lemma AllAbove(x: Ticks, s: seq<Ticks>, v: Ticks, r: seq<Ticks>)
    requires x <= v && (forall i :: 0 <= i < |s| ==> x <= s[i]) && multiset(r) == multiset(s) + multiset{v}
    ensures forall i :: 0 <= i < |r| ==> x <= r[i]
  {
    forall i | 0 <= i < |r| ensures x <= r[i] {
      assert r[i] in multiset(r);
    }
  }

  lemma {:induction false} InsertTickSorts(s: seq<Ticks>, v: Ticks)
    requires Ascending(s)
    ensures Ascending(InsertTick(s, v)) && multiset(InsertTick(s, v)) == multiset(s) + multiset{v}
  {
    hide Ascending;
    if s == [] {
      Prepend(v, s);
    } else {
      Headed(s);
      if v <= s[0] {
        Prepend(v, s);
      } else {
        InsertTickSorts(s[1..], v);
        var r := InsertTick(s[1..], v);
        AllAbove(s[0], s[1..], v, r);
        Prepend(s[0], r);
      }
    }
  }

  lemma {:induction false} SortTicksSorts(s: seq<Ticks>)
    ensures Ascending(SortTicks(s)) && multiset(SortTicks(s)) == multiset(s) && |SortTicks(s)| == |s|
  {
    if s != [] {
      SortTicksSorts(s[1..]);
      InsertTickSorts(SortTicks(s[1..]), s[0]);
      assert s == [s[0]] + s[1..];
      assert |multiset(SortTicks(s))| == |multiset(s)|;
    }
  }

  lemma SameLeast(a: seq<Ticks>, b: seq<Ticks>)
    requires a != [] && b != [] && multiset(a) == multiset(b)
    requires (forall i :: 0 <= i < |a| ==> a[0] <= a[i]) && (forall i :: 0 <= i < |b| ==> b[0] <= b[i])
    ensures a[0] == b[0]
  {
    assert a[0] in multiset(b) && b[0] in multiset(a);
  }

  lemma {:induction false} SortedIsUnique(a: seq<Ticks>, b: seq<Ticks>)
    requires Ascending(a) && Ascending(b) && multiset(a) == multiset(b)
    ensures a == b
  {
    assert |multiset(a)| == |a| && |multiset(b)| == |b|;
    hide Ascending;
    if a != [] {
      Headed(a);
      Headed(b);
      SameLeast(a, b);
      assert multiset(a[1..]) == multiset(a) - multiset{a[0]} == multiset(b[1..]);
      SortedIsUnique(a[1..], b[1..]);
    }
  }

  // ---- Quartiles and fences ----

  function LowerQuartile(s: seq<Ticks>): Ticks
    requires s != []
  {
    s[|s| / 4]
  }

  function UpperQuartile(s: seq<Ticks>): Ticks
    requires s != []
  {
    s[3 * |s| / 4]
  }

  // Twice the fences: 2 (q1 - 1.5 iqr) and 2 (q3 + 1.5 iqr)
  function LowerFence(s: seq<Ticks>): int
    requires s != []
  {
    2 * LowerQuartile(s) - 3 * (UpperQuartile(s) - LowerQuartile(s))
  }

  function UpperFence(s: seq<Ticks>): int
    requires s != []
  {
    2 * UpperQuartile(s) + 3 * (UpperQuartile(s) - LowerQuartile(s))
  }

  predicate WithinFences(s: seq<Ticks>, v: Ticks)
    requires s != []
  {
    LowerFence(s) <= 2 * v <= UpperFence(s)
  }

  // A sample is kept if and only if it lies at most one and a half interquartile ranges
  // outside the quartiles.
  lemma FencesAreExact(s: seq<Ticks>, v: Ticks)
    requires s != []
    ensures var q1, q3 := s[|s| / 4] as real, s[3 * |s| / 4] as real;
      WithinFences(s, v) <==> q1 - 1.5 * (q3 - q1) <= v as real <= q3 + 1.5 * (q3 - q1)
  {
  }

  // Positions from `first`, `count` of them, are exactly those within the fences.
  predicate KeptRun(s: seq<Ticks>, first: nat, count: nat)
    requires s != []
  {
    && first + count <= |s|
    && forall i :: 0 <= i < |s| ==> (first <= i < first + count <==> WithinFences(s, s[i]))
  }

  // The kept run holds both quartiles, more than half of all samples, and its least
  // sample comes first.
  lemma KeptRunIsMajority(s: seq<Ticks>, first: nat, count: nat)
    requires s != [] && Ascending(s) && KeptRun(s, first, count)
    ensures first <= |s| / 4 && 3 * |s| / 4 < first + count
    ensures 2 * count > |s|
    ensures forall i :: 0 <= i < |s| && WithinFences(s, s[i]) ==> s[first] <= s[i]
  {
    var a, b := |s| / 4, 3 * |s| / 4;
    assert s[a] <= s[b];
    assert WithinFences(s, s[a]) && WithinFences(s, s[b]);
  }

  lemma KeptRunIsUnique(s: seq<Ticks>, f1: nat, c1: nat, f2: nat, c2: nat)
    requires s != [] && Ascending(s) && KeptRun(s, f1, c1) && KeptRun(s, f2, c2)
    ensures f1 == f2 && c1 == c2
  {
    hide WithinFences;
    KeptRunIsMajority(s, f1, c1);
    KeptRunIsMajority(s, f2, c2);
    assert f1 <= f2 by { assert WithinFences(s, s[f2]); }
    assert f2 <= f1 by { assert WithinFences(s, s[f1]); }
    var l1, l2 := f1 + c1 - 1, f2 + c2 - 1;
    assert WithinFences(s, s[l1]) && WithinFences(s, s[l2]);
  }

  // ---- _cairo_stats_compute ----

  // cairo_stats_t, without the standard deviation
  datatype Stats = Stats(iterations: nat, minTicks: Ticks, medianTicks: Ticks)

  // Some statistics are those of a list of samples.
  ghost predicate Describes(stats: Stats, samples: seq<Ticks>)
    requires samples != []
  {
    SortTicksSorts(samples);
    var s := SortTicks(samples);
    exists first :: 0 <= first && KeptRun(s, first, stats.iterations) && 0 < stats.iterations
      && stats.minTicks == s[first] && stats.medianTicks == s[first + stats.iterations / 2]
  }

  // In terms of the samples as they come: the kept ones are those within the fences, each
  // as often as it occurs, and the statistics are their number, the least, and the one
  // that half of them come before.
  lemma DescribedExactly(stats: Stats, samples: seq<Ticks>) returns (kept: seq<Ticks>)
    requires samples != [] && Describes(stats, samples)
    ensures SortTicks(samples) != [] && Ascending(kept) && |kept| == stats.iterations > 0
    ensures forall v :: multiset(kept)[v] == if WithinFences(SortTicks(samples), v) then multiset(samples)[v] else 0
    ensures stats.minTicks == kept[0] && stats.medianTicks == kept[|kept| / 2]
  {
    hide WithinFences, SortTicks, Ascending, KeptRun, Describes;
    SortTicksSorts(samples);
    var s := SortTicks(samples);
    var first := DescribedFrom(stats, samples);
    KeptFits(s, first, stats.iterations);
    kept := s[first..first + stats.iterations];
    KeptIsAscending(s, first, stats.iterations);
    forall v ensures multiset(kept)[v] == if WithinFences(s, v) then multiset(samples)[v] else 0 {
      KeptIsFiltered(s, first, stats.iterations, v);
    }
  }

  lemma DescribedFrom(stats: Stats, samples: seq<Ticks>) returns (first: nat)
    requires samples != [] && Describes(stats, samples)
    ensures SortTicks(samples) != [] && KeptRun(SortTicks(samples), first, stats.iterations) && 0 < stats.iterations
    ensures first + stats.iterations <= |SortTicks(samples)| && stats.minTicks == SortTicks(samples)[first]
    ensures stats.medianTicks == SortTicks(samples)[first + stats.iterations / 2]
  {
    hide WithinFences, SortTicks;
    SortTicksSorts(samples);
    var s := SortTicks(samples);
    first :| 0 <= first && KeptRun(s, first, stats.iterations) && 0 < stats.iterations
      && stats.minTicks == s[first] && stats.medianTicks == s[first + stats.iterations / 2];
  }

  lemma KeptFits(s: seq<Ticks>, first: nat, count: nat)
    requires s != [] && KeptRun(s, first, count)
    ensures first + count <= |s|
  {
  }

  lemma KeptIsAscending(s: seq<Ticks>, first: nat, count: nat)
    requires Ascending(s) && first + count <= |s|
    ensures Ascending(s[first..first + count])
  {
  }

  lemma KeptIsFiltered(s: seq<Ticks>, first: nat, count: nat, v: Ticks)
    requires s != [] && KeptRun(s, first, count)
    ensures multiset(s[first..first + count])[v] == if WithinFences(s, v) then multiset(s)[v] else 0
  {
    hide WithinFences;
    var last := first + count;
    if WithinFences(s, v) {
      forall i | 0 <= i < |s| && !(first <= i < last) ensures s[i] != v { assert !WithinFences(s, s[i]); }
      MiddleHoldsAll(s, first, last, v);
    } else {
      assert v !in s[first..last];
    }
  }

  lemma MiddleHoldsAll(s: seq<Ticks>, a: nat, b: nat, v: Ticks)
    requires a <= b <= |s| && forall i :: 0 <= i < |s| && !(a <= i < b) ==> s[i] != v
    ensures multiset(s[a..b])[v] == multiset(s)[v]
  {
    assert s == s[..a] + s[a..b] + s[b..];
    assert v !in s[..a] && v !in s[b..];
  }

  method SortInPlace(values: array<Ticks>)
    modifies values
    ensures values[..] == SortTicks(old(values[..]))
  {
    SortTicksSorts(values[..]);
    var sorted := SortTicks(values[..]);
    forall i | 0 <= i < values.Length { values[i] := sorted[i]; }
    assert values[..] == sorted;
  }

  // The loop that keeps the least of the valid samples.
  method Least(values: array<Ticks>, first: nat, count: nat) returns (least: Ticks)
    requires 0 < count && first + count <= values.Length
    ensures exists i :: first <= i < first + count && values[i] == least
    ensures forall i :: first <= i < first + count ==> least <= values[i]
  {
    least := values[first];
    for i := first to first + count
      invariant exists j :: first <= j < first + count && values[j] == least
      invariant forall j :: first <= j < i ==> least <= values[j]
    {
      if values[i] < least { least := values[i]; }
    }
  }

  // The two loops over the sorted samples
  method Trim(values: array<Ticks>) returns (minValid: nat, numValid: nat)
    requires values.Length > 0 && Ascending(values[..])
    ensures KeptRun(values[..], minValid, numValid)
  {
    hide Ascending, KeptRun;
    ghost var s := values[..];
    var n := values.Length;
    var q1, q3 := values[1 * n / 4], values[3 * n / 4];
    var iqr := q3 - q1;
    var outlierMin, outlierMax := 2 * q1 - 3 * iqr, 2 * q3 + 3 * iqr;
    assert outlierMin == LowerFence(s) && outlierMax == UpperFence(s);
    minValid := 0;
    while minValid < n && 2 * values[minValid] < outlierMin
      invariant minValid <= n
      invariant forall i :: 0 <= i < minValid ==> 2 * s[i] < outlierMin
    {
      minValid := minValid + 1;
    }
    numValid := 0;
    while minValid + numValid < n && 2 * values[minValid + numValid] <= outlierMax
      invariant minValid + numValid <= n
      invariant forall i :: minValid <= i < minValid + numValid ==> 2 * s[i] <= outlierMax
    {
      numValid := numValid + 1;
    }
    Partitioned(s, minValid, numValid);
  }

  method Compute(values: array<Ticks>) returns (stats: Stats)
    requires values.Length > 0
    modifies values
    ensures values[..] == SortTicks(old(values[..])) && Describes(stats, old(values[..]))
  {
    hide Ascending, WithinFences;
    SortTicksSorts(values[..]);
    SortInPlace(values);
    var minValid, numValid := Trim(values);
    KeptRunIsMajority(values[..], minValid, numValid);
    var minTicks := Least(values, minValid, numValid);
    FirstIsLeast(values[..], minValid, numValid, minTicks);
    stats := Stats(numValid, minTicks, values[minValid + numValid / 2]);
  }

  lemma FirstIsLeast(s: seq<Ticks>, first: nat, count: nat, least: Ticks)
    requires Ascending(s) && 0 < count && first + count <= |s|
    requires exists i :: first <= i < first + count && s[i] == least
    requires forall i :: first <= i < first + count ==> least <= s[i]
    ensures least == s[first]
  {
  }

  // In a sorted list the samples below the lower fence come first, and those above
  // the upper fence last.
  lemma Partitioned(s: seq<Ticks>, first: nat, count: nat)
    requires s != [] && Ascending(s) && first + count <= |s|
    requires forall i :: 0 <= i < first ==> 2 * s[i] < LowerFence(s)
    requires first < |s| ==> 2 * s[first] >= LowerFence(s)
    requires forall i :: first <= i < first + count ==> 2 * s[i] <= UpperFence(s)
    requires first + count < |s| ==> 2 * s[first + count] > UpperFence(s)
    ensures KeptRun(s, first, count)
  {
    hide LowerFence, UpperFence;
  }
}
