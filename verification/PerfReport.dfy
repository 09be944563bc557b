// Performance reports: sorting and condensing raw results, and joining two reports
// (perf/cairo-perf-report.c, lines 303-383, and perf/cairo-perf-diff-files.c, lines
// 193-303).
module PerfReport {
  import opened Stats

  // Strings are their bytes, as strcmp compares them.
  type Str = seq<int>

  datatype Name = Null | Name(value: Str)

  datatype Key = Key(backend: Str, content: Str, name: Name, size: int)

  // test_report_t; a condensed-away or not yet condensed test has 0 iterations.
  datatype Test = Test(key: Key, samples: seq<Ticks>, stats: Stats)

  // ---- test_report_cmp_backend_then_name ----

  function StrCmp(a: Str, b: Str): int {
    if a == [] && b == [] then 0
    else if a == [] then -1
    else if b == [] then 1
    else if a[0] != b[0] then a[0] - b[0]
    else StrCmp(a[1..], b[1..])
  }

  function Compare(a: Key, b: Key): int {
    if StrCmp(a.backend, b.backend) != 0 then StrCmp(a.backend, b.backend)
    else if StrCmp(a.content, b.content) != 0 then StrCmp(a.content, b.content)
    else if a.name.Null? then (if b.name.Null? then 0 else 1)
    else if b.name.Null? then -1
    else if StrCmp(a.name.value, b.name.value) != 0 then StrCmp(a.name.value, b.name.value)
    else if a.size < b.size then -1
    else if a.size > b.size then 1
    else 0
  }

  lemma {:induction false} StrCmpIsOrder(a: Str, b: Str)
    ensures StrCmp(a, b) == 0 <==> a == b
    ensures StrCmp(a, b) < 0 <==> StrCmp(b, a) > 0
    ensures StrCmp(b, a) < 0 <==> StrCmp(a, b) > 0
    decreases |a|
  {
    if a != [] && b != [] {
      StrCmpIsOrder(a[1..], b[1..]);
      assert a == [a[0]] + a[1..] && b == [b[0]] + b[1..];
    }
  }

  lemma {:induction false} StrCmpTransitive(a: Str, b: Str, c: Str)
    requires StrCmp(a, b) <= 0 && StrCmp(b, c) <= 0
    ensures StrCmp(a, c) <= 0
    ensures StrCmp(a, c) == 0 ==> a == b == c
    decreases |a|
  {
    if a != [] && b != [] && c != [] && a[0] == b[0] == c[0] {
      StrCmpTransitive(a[1..], b[1..], c[1..]);
      assert a == [a[0]] + a[1..] && b == [b[0]] + b[1..] && c == [c[0]] + c[1..];
    }
  }

  // The keys the comparison does not tell apart: sizes of nameless tests do not matter.
  predicate SameKey(a: Key, b: Key) {
    && a.backend == b.backend && a.content == b.content && a.name == b.name
    && (a.name.Null? || a.size == b.size)
  }

  lemma CompareIsOrder(a: Key, b: Key)
    ensures Compare(a, b) == 0 <==> SameKey(a, b)
    ensures Compare(a, b) < 0 <==> Compare(b, a) > 0
  {
    hide StrCmp;
    StrCmpIsOrder(a.backend, b.backend);
    StrCmpIsOrder(a.content, b.content);
    if a.name.Name? && b.name.Name? { StrCmpIsOrder(a.name.value, b.name.value); }
  }

  lemma CompareTransitive(a: Key, b: Key, c: Key)
    requires Compare(a, b) <= 0 && Compare(b, c) <= 0
    ensures Compare(a, c) <= 0
    ensures Compare(a, c) == 0 ==> SameKey(a, b) && SameKey(b, c)
  {
    hide StrCmp;
    StrCmpIsOrder(a.backend, b.backend);
    StrCmpIsOrder(b.backend, c.backend);
    StrCmpTransitive(a.backend, b.backend, c.backend);
    if a.backend == c.backend {
      StrCmpIsOrder(a.content, b.content);
      StrCmpIsOrder(b.content, c.content);
      StrCmpTransitive(a.content, b.content, c.content);
      if a.content == c.content && a.name.Name? && b.name.Name? && c.name.Name? {
        StrCmpIsOrder(a.name.value, b.name.value);
        StrCmpIsOrder(b.name.value, c.name.value);
        StrCmpTransitive(a.name.value, b.name.value, c.name.value);
      }
    }
  }

  // ---- The order of keys, written without the comparison ----

  // k bytes agree, and then a ends and b goes on, or a's byte is the lesser.
  predicate PartsAt(a: Str, b: Str, k: nat) {
    && k <= |a| && k <= |b| && a[..k] == b[..k]
    && k < |b| && (k == |a| || a[k] < b[k])
  }

  // a is a proper prefix of b, or has the lesser byte where they first differ.
  ghost predicate StrBefore(a: Str, b: Str) {
    exists k: nat :: PartsAt(a, b, k)
  }

  // Backend first, then content, then name with NULL last, then the lesser size.
  ghost predicate KeyBefore(a: Key, b: Key) {
    || StrBefore(a.backend, b.backend)
    || (a.backend == b.backend && StrBefore(a.content, b.content))
    || (a.backend == b.backend && a.content == b.content && a.name.Name? && b.name.Null?)
    || (a.backend == b.backend && a.content == b.content && a.name.Name? && b.name.Name?
        && (StrBefore(a.name.value, b.name.value) || (a.name == b.name && a.size < b.size)))
  }

  lemma {:induction false} StrCmpIsBefore(a: Str, b: Str)
    ensures StrCmp(a, b) < 0 <==> StrBefore(a, b)
    decreases |a|
  {
    if a == [] || b == [] || a[0] != b[0] {
      PartsAtOnce(a, b);
    } else {
      StrCmpIsBefore(a[1..], b[1..]);
      if StrBefore(a[1..], b[1..]) {
        var k: nat :| PartsAt(a[1..], b[1..], k);
        PartsLater(a, b, k);
      }
      if StrBefore(a, b) {
        var k: nat :| PartsAt(a, b, k);
        PartsLater(a, b, k - 1);
      }
    }
  }

  lemma PartsAtOnce(a: Str, b: Str)
    requires a == [] || b == [] || a[0] != b[0]
    ensures StrBefore(a, b) <==> PartsAt(a, b, 0)
  {
    forall k: nat | k > 0 ensures !PartsAt(a, b, k) {
      if k <= |a| && k <= |b| { assert a[..k][0] == a[0] && b[..k][0] == b[0]; }
    }
  }

  lemma PartsLater(a: Str, b: Str, k: int)
    requires a != [] && b != [] && a[0] == b[0] && k >= -1
    ensures k >= 0 && PartsAt(a[1..], b[1..], k) <==> PartsAt(a, b, k + 1)
  {
    if 0 <= k < |a| && k < |b| {
      assert a[..k + 1] == [a[0]] + a[1..][..k];
      assert b[..k + 1] == [b[0]] + b[1..][..k];
      assert a[..k + 1] == b[..k + 1] ==> a[1..][..k] == a[..k + 1][1..] == b[..k + 1][1..] == b[1..][..k];
    }
  }

  // The comparison has the direction of that order: backends, contents, names, then the
  // lesser size first.
  lemma CompareIsLex(a: Key, b: Key)
    ensures Compare(a, b) < 0 <==> KeyBefore(a, b)
    ensures Compare(a, b) > 0 <==> KeyBefore(b, a)
  {
    hide StrCmp, StrBefore;
    StrCmpIsOrder(a.backend, b.backend);
    StrCmpIsOrder(a.content, b.content);
    StrCmpIsBefore(a.backend, b.backend);
    StrCmpIsBefore(b.backend, a.backend);
    StrCmpIsBefore(a.content, b.content);
    StrCmpIsBefore(b.content, a.content);
    if a.name.Name? && b.name.Name? {
      StrCmpIsOrder(a.name.value, b.name.value);
      StrCmpIsBefore(a.name.value, b.name.value);
      StrCmpIsBefore(b.name.value, a.name.value);
    }
  }

  // a's backend and content come before b's.
  predicate PlacedBefore(a: Key, b: Key) {
    StrCmp(a.backend, b.backend) < 0 || (a.backend == b.backend && StrCmp(a.content, b.content) < 0)
  }

  // A NULL name comes after a name if and only if backend and content do not put it before.
  lemma NullNameIsLastInItsPlace(a: Key, b: Key)
    requires a.name.Null? && b.name.Name?
    ensures Compare(a, b) > 0 <==> !PlacedBefore(a, b)
  {
    hide StrCmp;
    StrCmpIsOrder(a.backend, b.backend);
    StrCmpIsOrder(a.content, b.content);
  }

  // So it is not forced last: here it comes before a test of a later backend.
  lemma NullNameFirst(size: int)
    ensures Compare(Key([1], [], Null, size), Key([2], [], Name([1]), size)) < 0
  {
  }

  // ---- Sorting ----

  predicate InOrder(tests: seq<Test>) {
    forall i, j :: 0 <= i < j < |tests| ==> Compare(tests[i].key, tests[j].key) <= 0
  }

  function InsertTest(tests: seq<Test>, t: Test): seq<Test> {
    if tests == [] || Compare(t.key, tests[0].key) <= 0 then [t] + tests
    else [tests[0]] + InsertTest(tests[1..], t)
  }

  // One result of the qsort; it leaves the order of equal keys open.
  function SortTests(tests: seq<Test>): seq<Test> {
    if tests == [] then [] else InsertTest(SortTests(tests[1..]), tests[0])
  }

  lemma PrependTest(t: Test, tests: seq<Test>)
    requires InOrder(tests) && forall i :: 0 <= i < |tests| ==> Compare(t.key, tests[i].key) <= 0
    ensures InOrder([t] + tests) && multiset([t] + tests) == multiset{t} + multiset(tests)
  {
    hide Compare;
  }

  lemma FirstTest(tests: seq<Test>)
    requires tests != [] && InOrder(tests)
    ensures tests == [tests[0]] + tests[1..] && InOrder(tests[1..])
    ensures multiset(tests) == multiset{tests[0]} + multiset(tests[1..])
    ensures forall i :: 0 <= i < |tests| ==> Compare(tests[0].key, tests[i].key) <= 0
  {
    CompareIsOrder(tests[0].key, tests[0].key);
    hide Compare;
    assert tests == [tests[0]] + tests[1..];
  }

  lemma AllAfter(x: Key, t: Test, tests: seq<Test>, r: seq<Test>)
    requires multiset(r) == multiset(tests) + multiset{t}
    requires Compare(x, t.key) <= 0 && forall i :: 0 <= i < |tests| ==> Compare(x, tests[i].key) <= 0
    ensures forall i :: 0 <= i < |r| ==> Compare(x, r[i].key) <= 0
  {
    hide Compare;
    forall i | 0 <= i < |r| ensures Compare(x, r[i].key) <= 0 {
      assert r[i] in multiset(r);
    }
  }

  lemma {:induction false} InsertTestSorts(tests: seq<Test>, t: Test)
    requires InOrder(tests)
    ensures InOrder(InsertTest(tests, t)) && multiset(InsertTest(tests, t)) == multiset(tests) + multiset{t}
  {
    hide Compare, InOrder;
    if tests == [] {
      PrependTest(t, tests);
    } else {
      FirstTest(tests);
      CompareIsOrder(t.key, tests[0].key);
      if Compare(t.key, tests[0].key) <= 0 {
        forall i | 0 <= i < |tests| ensures Compare(t.key, tests[i].key) <= 0 {
          CompareTransitive(t.key, tests[0].key, tests[i].key);
        }
        PrependTest(t, tests);
      } else {
        InsertTestSorts(tests[1..], t);
        var r := InsertTest(tests[1..], t);
        AllAfter(tests[0].key, t, tests[1..], r);
        PrependTest(tests[0], r);
      }
    }
  }

  lemma {:induction false} SortTestsSorts(tests: seq<Test>)
    ensures InOrder(SortTests(tests)) && multiset(SortTests(tests)) == multiset(tests)
    ensures |SortTests(tests)| == |tests|
  {
    hide Compare, InsertTest;
    if tests != [] {
      SortTestsSorts(tests[1..]);
      InsertTestSorts(SortTests(tests[1..]), tests[0]);
      assert tests == [tests[0]] + tests[1..];
      assert |multiset(SortTests(tests))| == |multiset(tests)|;
    }
  }

  // ---- Condensing ----

  // A test as a raw report has it.
  predicate Raw(t: Test) {
    t.key.name.Name? && t.samples != [] && t.stats.iterations == 0
  }

  predicate AllRaw(tests: seq<Test>) {
    forall i :: 0 <= i < |tests| ==> Raw(tests[i])
  }

  // All samples of one key.
  function SamplesOf(tests: seq<Test>, key: Key): multiset<Ticks> {
    if tests == [] then multiset{} else
      var t := tests[|tests| - 1];
      SamplesOf(tests[..|tests| - 1], key) + if SameKey(t.key, key) then multiset(t.samples) else multiset{}
  }

  predicate FirstOfKey(tests: seq<Test>, i: nat)
    requires i < |tests|
  {
    forall j :: 0 <= j < i ==> !SameKey(tests[j].key, tests[i].key)
  }

  // The entry `now` stands for all tests of its key in `before`.
  ghost predicate Stands(before: seq<Test>, now: Test) {
    && now.samples != [] && multiset(now.samples) == SamplesOf(before, now.key)
    && Describes(now.stats, now.samples)
  }

  // What condensing makes of sorted raw tests: the first test of each key gets all of
  // its samples, and the others stay without statistics.
  ghost predicate Condensed(before: seq<Test>, after: seq<Test>, upTo: nat)
  {
    && upTo <= |before| == |after|
    && (forall i :: 0 <= i < |before| ==> after[i].key == before[i].key)
    && (forall i :: 0 <= i < upTo ==> if FirstOfKey(before, i) then Stands(before, after[i]) else after[i] == before[i])
    && (forall i :: upTo <= i < |before| ==> after[i] == before[i])
  }

  // The samples of a stretch of tests, in order.
  function Gathered(tests: seq<Test>, from: nat, to: nat): seq<Ticks>
    requires from < to <= |tests|
  {
    if to == from + 1 then tests[from].samples else Gathered(tests, from, to - 1) + tests[to - 1].samples
  }

  lemma OneMoreTest(tests: seq<Test>, key: Key, n: nat)
    requires 0 < n <= |tests|
    ensures SamplesOf(tests[..n], key)
         == SamplesOf(tests[..n - 1], key)
            + if SameKey(tests[n - 1].key, key) then multiset(tests[n - 1].samples) else multiset{}
  {
    assert tests[..n][..n - 1] == tests[..n - 1] && tests[..n][n - 1] == tests[n - 1];
  }

  // A stretch holding all tests of a key holds all its samples.
  lemma {:induction false} GatheredIsAll(tests: seq<Test>, key: Key, from: nat, to: nat, n: nat)
    requires from < to <= |tests| && n <= |tests|
    requires forall i :: 0 <= i < |tests| ==> (SameKey(tests[i].key, key) <==> from <= i < to)
    ensures n <= from ==> SamplesOf(tests[..n], key) == multiset{}
    ensures from < n ==> SamplesOf(tests[..n], key) == multiset(Gathered(tests, from, if n < to then n else to))
    decreases n
  {
    hide SameKey;
    if n > 0 {
      GatheredIsAll(tests, key, from, to, n - 1);
      OneMoreTest(tests, key, n);
      hide SamplesOf;
      if from < n <= to { LastGathered(tests, from, n); }
    }
  }

  lemma LastGathered(tests: seq<Test>, from: nat, n: nat)
    requires from < n <= |tests|
    ensures multiset(Gathered(tests, from, n))
         == (if n == from + 1 then multiset{} else multiset(Gathered(tests, from, n - 1)))
            + multiset(tests[n - 1].samples)
  {
  }

  // Whatever lies between two equal keys is equal to them.
  lemma BetweenEqual(tests: seq<Test>, i: nat, m: nat, j: nat)
    requires InOrder(tests) && i <= m <= j < |tests| && SameKey(tests[i].key, tests[j].key)
    ensures SameKey(tests[i].key, tests[m].key)
  {
    hide Compare;
    if i < m < j {
      var a, b, c := tests[i].key, tests[m].key, tests[j].key;
      CompareIsOrder(a, c);
      CompareTransitive(a, b, c);
    }
  }

  // The tests of the key at `base`, which follows other keys, end before `next`.
  lemma GroupIsWhole(tests: seq<Test>, base: nat, next: nat)
    requires InOrder(tests) && base < next <= |tests|
    requires forall i :: 0 <= i < base ==> !SameKey(tests[i].key, tests[base].key)
    requires forall i :: base <= i < next ==> SameKey(tests[base].key, tests[i].key)
    requires next < |tests| ==> !SameKey(tests[base].key, tests[next].key)
    ensures forall i :: 0 <= i < |tests| ==> (SameKey(tests[i].key, tests[base].key) <==> base <= i < next)
    ensures forall i, j :: 0 <= i < next <= j < |tests| ==> !SameKey(tests[i].key, tests[j].key)
  {
    hide Compare, InOrder;
    forall j | next <= j < |tests| ensures !SameKey(tests[base].key, tests[j].key) {
      if SameKey(tests[base].key, tests[j].key) { BetweenEqual(tests, base, next, j); }
    }
    forall i, j | 0 <= i < next <= j < |tests| ensures !SameKey(tests[i].key, tests[j].key) {
      if i < base && SameKey(tests[i].key, tests[j].key) { BetweenEqual(tests, i, base, j); }
    }
  }

  // The loop that finds where the tests equal to the one at base end
  method FindNext(tests: array<Test>, base: nat) returns (next: nat)
    requires base < tests.Length
    ensures base < next <= tests.Length
    ensures forall i :: base <= i < next ==> SameKey(tests[base].key, tests[i].key)
    ensures next < tests.Length ==> !SameKey(tests[base].key, tests[next].key)
  {
    hide Compare;
    next := base + 1;
    while next < tests.Length && Compare(tests[base].key, tests[next].key) == 0
      invariant base < next <= tests.Length
      invariant forall i :: base <= i < next ==> SameKey(tests[base].key, tests[i].key)
    {
      CompareIsOrder(tests[base].key, tests[next].key);
      next := next + 1;
    }
    if next < tests.Length { CompareIsOrder(tests[base].key, tests[next].key); }
  }

  // Brings the samples of a stretch together in its first test.
  method Gather(tests: array<Test>, base: nat, next: nat)
    requires base < next <= tests.Length
    modifies tests
    ensures tests[..] == old(tests[..])[base := old(tests[base]).(samples := Gathered(old(tests[..]), base, next))]
  {
    ghost var before := tests[..];
    for t := base + 1 to next
      invariant tests[..] == before[base := before[base].(samples := Gathered(before, base, t))]
    {
      assert tests[t] == tests[..][t] == before[t];
      assert tests[base] == tests[..][base];
      tests[base] := tests[base].(samples := tests[base].samples + tests[t].samples);
    }
  }

  // _cairo_stats_compute on the samples of a test; it leaves them sorted.
  method ComputeStats(tests: array<Test>, base: nat)
    requires base < tests.Length && tests[base].samples != []
    modifies tests
    ensures forall i :: 0 <= i < tests.Length && i != base ==> tests[i] == old(tests[i])
    ensures tests[base].key == old(tests[base].key)
    ensures multiset(tests[base].samples) == multiset(old(tests[base].samples))
    ensures tests[base].samples != [] && Describes(tests[base].stats, tests[base].samples)
  {
    hide Describes, SortTicks, Ascending;
    var samples := tests[base].samples;
    var values := new Ticks[|samples|](i requires 0 <= i < |samples| => samples[i]);
    assert values[..] == samples;
    var stats := Compute(values);
    SortTicksSorts(samples);
    DescribesSorted(stats, samples);
    tests[base] := tests[base].(samples := values[..], stats := stats);
  }

  lemma DescribesSorted(stats: Stats, samples: seq<Ticks>)
    requires samples != [] && Describes(stats, samples)
    ensures SortTicks(samples) != [] && Describes(stats, SortTicks(samples))
  {
    var s := SortTicks(samples);
    SortTicksSorts(samples);
    SortTicksSorts(s);
    SortedIsUnique(SortTicks(s), s);
  }

  // One turn of the outer loop, for the group from base to next.
  lemma GroupCondensed(before: seq<Test>, was: seq<Test>, now: seq<Test>, base: nat, next: nat)
    requires |was| == |now| == |before| && base < next <= |before|
    requires InOrder(before) && AllRaw(before) && Condensed(before, was, base)
    requires forall i :: 0 <= i < base ==> !SameKey(before[i].key, before[base].key)
    requires forall i :: base <= i < next ==> SameKey(before[base].key, before[i].key)
    requires next < |before| ==> !SameKey(before[base].key, before[next].key)
    requires forall i :: 0 <= i < |now| && i != base ==> now[i] == was[i]
    requires now[base].key == was[base].key && now[base].samples != []
    requires multiset(now[base].samples) == multiset(Gathered(was, base, next))
    requires Describes(now[base].stats, now[base].samples)
    ensures Condensed(before, now, next)
    ensures forall i, j :: 0 <= i < next <= j < |before| ==> !SameKey(before[i].key, before[j].key)
  {
    hide Describes, InOrder, AllRaw, SameKey, Gathered, SamplesOf, FirstOfKey;
    GroupIsWhole(before, base, next);
    SameGathered(before, was, base, next);
    var k := before[base].key;
    GatheredIsAll(before, k, base, next, |before|);
    assert before[..|before|] == before;
    assert Stands(before, now[base]);
    OnlyFirst(before, base, next);
    forall i | 0 <= i < next
      ensures if FirstOfKey(before, i) then Stands(before, now[i]) else now[i] == before[i]
    {
      if i < base { assert now[i] == was[i]; }
    }
  }

  lemma OnlyFirst(tests: seq<Test>, base: nat, next: nat)
    requires base < next <= |tests|
    requires forall i :: 0 <= i < base ==> !SameKey(tests[i].key, tests[base].key)
    requires forall i :: base <= i < next ==> SameKey(tests[base].key, tests[i].key)
    ensures FirstOfKey(tests, base) && forall i :: base < i < next ==> !FirstOfKey(tests, i)
  {
    hide SameKey;
    forall i | base < i < next ensures !FirstOfKey(tests, i) {
      assert SameKey(tests[base].key, tests[i].key);
    }
  }

  lemma {:induction false} SameGathered(a: seq<Test>, b: seq<Test>, from: nat, to: nat)
    requires from < to <= |a| == |b| && forall i :: from <= i < to ==> a[i] == b[i]
    ensures Gathered(a, from, to) == Gathered(b, from, to)
  {
    if to > from + 1 { SameGathered(a, b, from, to - 1); }
  }

  // cairo_perf_report_sort_and_compute_stats, once sorted
  method Condense(tests: array<Test>)
    requires InOrder(tests[..]) && AllRaw(tests[..])
    modifies tests
    ensures Condensed(old(tests[..]), tests[..], tests.Length)
  {
    hide InOrder, AllRaw, Condensed, Describes;
    ghost var before := tests[..];
    var base := 0;
    NothingCondensed(before);
    while base < tests.Length
      invariant base <= tests.Length && Condensed(before, tests[..], base)
      invariant forall i, j :: 0 <= i < base <= j < |before| ==> !SameKey(before[i].key, before[j].key)
    {
      ghost var was := tests[..];
      Untouched(before, was, base);
      var next := FindNext(tests, base);
      Gather(tests, base, next);
      GatheredNotEmpty(before, was, base, next);
      ComputeStats(tests, base);
      GroupCondensed(before, was, tests[..], base, next);
      base := next;
    }
  }

  lemma NothingCondensed(tests: seq<Test>)
    ensures Condensed(tests, tests, 0)
  {
  }

  lemma Untouched(before: seq<Test>, was: seq<Test>, base: nat)
    requires base <= |before| == |was| && Condensed(before, was, base)
    ensures forall i :: base <= i < |before| ==> was[i] == before[i]
  {
  }

  lemma {:induction false} GatheredNotEmpty(before: seq<Test>, was: seq<Test>, base: nat, next: nat)
    requires base < next <= |before| == |was| && AllRaw(before) && forall i :: base <= i < next ==> was[i] == before[i]
    ensures Gathered(was, base, next) != []
  {
    assert Raw(before[base]);
    if next > base + 1 { GatheredNotEmpty(before, was, base, next - 1); }
  }

  method SortAndComputeStats(tests: array<Test>)
    requires AllRaw(tests[..])
    modifies tests
    ensures Condensed(SortTests(old(tests[..])), tests[..], tests.Length)
  {
    hide Compare, Condensed, AllRaw;
    SortTestsSorts(tests[..]);
    RawSorted(tests[..]);
    var sorted := SortTests(tests[..]);
    forall i | 0 <= i < tests.Length { tests[i] := sorted[i]; }
    assert tests[..] == sorted;
    Condense(tests);
  }

  lemma RawSorted(tests: seq<Test>)
    requires AllRaw(tests)
    ensures AllRaw(SortTests(tests))
  {
    SortTestsSorts(tests);
    hide SortTests;
    var s := SortTests(tests);
    forall i | 0 <= i < |s| ensures Raw(s[i]) {
      assert s[i] in multiset(s);
    }
  }

  predicate HasStats(t: Test) {
    t.stats.iterations != 0
  }

  lemma {:induction false} FirstExists(tests: seq<Test>, i: nat) returns (j: nat)
    requires i < |tests|
    ensures j <= i && SameKey(tests[j].key, tests[i].key) && FirstOfKey(tests, j)
  {
    hide SameKey;
    if FirstOfKey(tests, i) {
      SameAsItself(tests[i].key);
      j := i;
    } else {
      var m :| 0 <= m < i && SameKey(tests[m].key, tests[i].key);
      j := FirstExists(tests, m);
      SameThrough(tests[j].key, tests[m].key, tests[i].key);
    }
  }

  lemma SameAsItself(a: Key)
    ensures SameKey(a, a)
  {
  }

  lemma SameThrough(a: Key, b: Key, c: Key)
    requires SameKey(a, b) && SameKey(b, c)
    ensures SameKey(a, c)
  {
  }

  // Condensing leaves exactly one entry with statistics for every key of the report;
  // its samples are those of all tests of the key.
  lemma OneEntryPerKey(before: seq<Test>, after: seq<Test>, i: nat) returns (j: nat)
    requires AllRaw(before) && Condensed(before, after, |before|) && i < |before|
    ensures j < |after| && HasStats(after[j]) && SameKey(after[j].key, before[i].key)
    ensures multiset(after[j].samples) == SamplesOf(before, after[j].key)
    ensures forall m :: 0 <= m < |after| && HasStats(after[m]) && SameKey(after[m].key, before[i].key) ==> m == j
  {
    hide SamplesOf, SameKey;
    j := FirstExists(before, i);
    var k := before[j].key;
    forall m | 0 <= m < |after| && HasStats(after[m]) && SameKey(after[m].key, before[i].key) ensures m == j {
      assert FirstOfKey(before, m);
      SameBack(k, before[i].key);
      SameBack(before[m].key, before[i].key);
      SameThrough(k, before[i].key, before[m].key);
      SameThrough(before[m].key, before[i].key, k);
    }
  }

  lemma SameBack(a: Key, b: Key)
    requires SameKey(a, b)
    ensures SameKey(b, a)
  {
  }

  // ---- Joining two reports ----

  // The tests that are not skipped.
  function WithStats(tests: seq<Test>): seq<Test> {
    if tests == [] then [] else (if HasStats(tests[0]) then [tests[0]] else []) + WithStats(tests[1..])
  }

  predicate Rising(tests: seq<Test>) {
    forall i, j :: 0 <= i < j < |tests| ==> Compare(tests[i].key, tests[j].key) < 0
  }

  lemma {:induction false} StatsMembers(tests: seq<Test>)
    ensures forall t :: t in WithStats(tests) <==> t in tests && HasStats(t)
  {
    hide HasStats;
    if tests != [] {
      assert tests == [tests[0]] + tests[1..];
      StatsMembers(tests[1..]);
    }
  }

  // What is left of a condensed report rises strictly.
  lemma {:induction false} StatsRise(tests: seq<Test>)
    requires InOrder(tests)
    requires forall i, j :: 0 <= i < j < |tests| && HasStats(tests[i]) && HasStats(tests[j]) ==>
               !SameKey(tests[i].key, tests[j].key)
    ensures Rising(WithStats(tests))
  {
    hide Compare, SameKey, HasStats;
    if tests != [] {
      var rest := WithStats(tests[1..]);
      StatsRise(tests[1..]);
      if HasStats(tests[0]) {
        StatsMembers(tests[1..]);
        forall i | 0 <= i < |rest| ensures Compare(tests[0].key, rest[i].key) < 0 {
          assert rest[i] in rest;
          var j :| 0 <= j < |tests[1..]| && tests[1..][j] == rest[i];
          assert tests[j + 1] == rest[i];
          CompareIsOrder(tests[0].key, tests[j + 1].key);
        }
      }
    }
  }

  lemma CondensedRises(before: seq<Test>, after: seq<Test>)
    requires InOrder(before) && AllRaw(before) && Condensed(before, after, |before|)
    ensures InOrder(after) && Rising(WithStats(after))
    ensures forall t :: t in WithStats(after) <==> t in after && HasStats(t)
  {
    hide Compare, SameKey, SamplesOf;
    forall i, j | 0 <= i < j < |after| && HasStats(after[i]) && HasStats(after[j])
      ensures !SameKey(after[i].key, after[j].key)
    {
      assert FirstOfKey(before, j);
    }
    StatsRise(after);
    StatsMembers(after);
  }

  datatype Diff = Diff(old_: Test, new_: Test)

  // The merge of the two lists of tests: a pair for every key at the front of both.
  function Merge(a: seq<Test>, b: seq<Test>): seq<Diff>
    decreases |a| + |b|
  {
    if a == [] || b == [] then []
    else if Compare(a[0].key, b[0].key) == 0 then [Diff(a[0], b[0])] + Merge(a[1..], b[1..])
    else if Compare(a[0].key, b[0].key) < 0 then Merge(a[1..], b)
    else Merge(a, b[1..])
  }

  predicate Paired(d: Diff, a: seq<Test>, b: seq<Test>) {
    d.old_ in a && d.new_ in b && SameKey(d.old_.key, d.new_.key)
  }

  lemma Tail(a: seq<Test>)
    requires a != [] && Rising(a)
    ensures a == [a[0]] + a[1..] && Rising(a[1..])
    ensures forall t :: t in a[1..] ==> Compare(a[0].key, t.key) < 0
    ensures forall t :: t in a <==> t == a[0] || t in a[1..]
  {
    hide Compare;
    assert a == [a[0]] + a[1..];
  }

  // A key below all of a rising list is not in it.
  lemma NotBelow(k: Key, b: seq<Test>)
    requires b != [] && Rising(b) && Compare(k, b[0].key) < 0
    ensures forall t :: t in b ==> Compare(k, t.key) < 0 && !SameKey(k, t.key) && !SameKey(t.key, k)
  {
    hide Compare, SameKey;
    Tail(b);
    forall t | t in b ensures Compare(k, t.key) < 0 && !SameKey(k, t.key) && !SameKey(t.key, k) {
      if t != b[0] { CompareTransitive(k, b[0].key, t.key); NotSameAfter(k, b[0].key, t.key); }
      CompareIsOrder(k, t.key);
      CompareIsOrder(t.key, k);
    }
  }

  lemma NotSameAfter(a: Key, b: Key, c: Key)
    requires Compare(a, b) < 0 && Compare(b, c) <= 0
    ensures Compare(a, c) < 0
  {
    CompareTransitive(a, b, c);
    CompareIsOrder(a, b);
  }

  predicate DiffsRise(diffs: seq<Diff>) {
    forall i, j :: 0 <= i < j < |diffs| ==> Compare(diffs[i].old_.key, diffs[j].old_.key) < 0
  }

  // The merge of two rising lists pairs exactly the keys common to both, once each,
  // in rising order.
  lemma {:induction false} MergeIsJoin(a: seq<Test>, b: seq<Test>)
    requires Rising(a) && Rising(b)
    ensures forall d :: d in Merge(a, b) <==> Paired(d, a, b)
    ensures DiffsRise(Merge(a, b))
    decreases |a| + |b|
  {
    hide Compare, SameKey, Rising;
    if a != [] && b != [] {
      var x, y := a[0], b[0];
      Tail(a);
      Tail(b);
      CompareIsOrder(x.key, y.key);
      if Compare(x.key, y.key) == 0 {
        MergeIsJoin(a[1..], b[1..]);
        HeadsPair(a, b);
        var r := Merge(a[1..], b[1..]);
        assert forall i :: 0 <= i < |r| ==> r[i].old_ in a[1..] by {
          assert forall i :: 0 <= i < |r| ==> r[i] in r;
        }
      } else if Compare(x.key, y.key) < 0 {
        MergeIsJoin(a[1..], b);
        NotBelow(x.key, b);
      } else {
        MergeIsJoin(a, b[1..]);
        CompareIsOrder(y.key, x.key);
        NotBelow(y.key, a);
      }
    }
  }

  lemma HeadsPair(a: seq<Test>, b: seq<Test>)
    requires a != [] && b != [] && Rising(a) && Rising(b) && SameKey(a[0].key, b[0].key)
    ensures forall d :: Paired(d, a, b) <==> d == Diff(a[0], b[0]) || Paired(d, a[1..], b[1..])
  {
    hide Compare, Rising;
    Tail(a);
    Tail(b);
    forall d | Paired(d, a, b) ensures d == Diff(a[0], b[0]) || Paired(d, a[1..], b[1..]) {
      CompareIsOrder(a[0].key, d.old_.key);
      CompareIsOrder(b[0].key, d.new_.key);
    }
  }

  // ---- The merge loop of cairo_perf_reports_compare, for two reports ----

  method SkipCondensed(tests: array<Test>, from: nat) returns (at: nat)
    requires from <= tests.Length
    ensures from <= at <= tests.Length && (at < tests.Length ==> HasStats(tests[at]))
    ensures WithStats(tests[from..]) == WithStats(tests[at..])
  {
    at := from;
    while at < tests.Length && tests[at].stats.iterations == 0
      invariant from <= at <= tests.Length && WithStats(tests[from..]) == WithStats(tests[at..])
    {
      assert tests[at..][1..] == tests[at + 1..];
      at := at + 1;
    }
  }

  lemma MergeFronts(x: Test, a: seq<Test>, y: Test, b: seq<Test>)
    ensures Merge([x] + a, [y] + b)
         == if Compare(x.key, y.key) == 0 then [Diff(x, y)] + Merge(a, b)
            else if Compare(x.key, y.key) < 0 then Merge(a, [y] + b)
            else Merge([x] + a, b)
  {
    assert ([x] + a)[1..] == a && ([y] + b)[1..] == b;
  }

  // Which of the two current tests are equal to the least
  method Least(x: Test, y: Test) returns (inOld: bool, inNew: bool)
    ensures inOld <==> Compare(x.key, y.key) <= 0
    ensures inNew <==> Compare(x.key, y.key) >= 0
  {
    hide Compare, SameKey;
    CompareIsOrder(x.key, y.key);
    CompareIsOrder(y.key, x.key);
    CompareIsOrder(x.key, x.key);
    CompareIsOrder(y.key, y.key);
    SameAsItself(x.key);
    SameAsItself(y.key);
    var least := x;
    if Compare(y.key, least.key) < 0 { least := y; }
    inOld, inNew := Compare(x.key, least.key) == 0, Compare(y.key, least.key) == 0;
    if SameKey(x.key, y.key) { SameBack(x.key, y.key); }
  }

  // The end of an array stands for the test without a name that ends the list.
  method CompareReports(olds: array<Test>, news: array<Test>) returns (diffs: seq<Diff>)
    requires forall i :: 0 <= i < olds.Length ==> olds[i].key.name.Name?
    requires forall i :: 0 <= i < news.Length ==> news[i].key.name.Name?
    ensures diffs == Merge(WithStats(olds[..]), WithStats(news[..]))
  {
    hide Compare, HasStats, Merge, WithStats;
    var i, j := 0, 0;
    diffs := [];
    ghost var whole := Merge(WithStats(olds[..]), WithStats(news[..]));
    assert olds[0..] == olds[..] && news[0..] == news[..];
    while true
      invariant i <= olds.Length && j <= news.Length
      invariant diffs + Merge(WithStats(olds[i..]), WithStats(news[j..])) == whole
      decreases olds.Length - i + news.Length - j
    {
      i := SkipCondensed(olds, i);
      j := SkipCondensed(news, j);
      if i == olds.Length || j == news.Length {
        NothingLeft(WithStats(olds[i..]), WithStats(news[j..]), olds[i..], news[j..]);
        break;
      }
      var x, y := olds[i], news[j];
      FrontOf(olds, i);
      FrontOf(news, j);
      ghost var a, b := WithStats(olds[i + 1..]), WithStats(news[j + 1..]);
      MergeFronts(x, a, y, b);
      var inOld, inNew := Least(x, y);
      if inOld { i := i + 1; }
      if inNew { j := j + 1; }
      if inOld && inNew {
        assert diffs + ([Diff(x, y)] + Merge(a, b)) == (diffs + [Diff(x, y)]) + Merge(a, b);
        diffs := diffs + [Diff(x, y)];
      }
    }
  }

  lemma FrontOf(tests: array<Test>, at: nat)
    requires at < tests.Length && HasStats(tests[at])
    ensures WithStats(tests[at..]) == [tests[at]] + WithStats(tests[at + 1..])
  {
    assert tests[at..][1..] == tests[at + 1..];
  }

  lemma NothingLeft(a: seq<Test>, b: seq<Test>, olds: seq<Test>, news: seq<Test>)
    requires a == WithStats(olds) && b == WithStats(news) && (olds == [] || news == [])
    ensures Merge(a, b) == []
  {
  }

  // Comparing two condensed reports records exactly their common keys.
  lemma ComparedIsCommon(oldRaw: seq<Test>, olds: seq<Test>, newRaw: seq<Test>, news: seq<Test>)
    requires InOrder(oldRaw) && AllRaw(oldRaw) && Condensed(oldRaw, olds, |oldRaw|)
    requires InOrder(newRaw) && AllRaw(newRaw) && Condensed(newRaw, news, |newRaw|)
    ensures var diffs := Merge(WithStats(olds), WithStats(news));
      && DiffsRise(diffs)
      && (forall d :: d in diffs <==>
            d.old_ in olds && d.new_ in news && HasStats(d.old_) && HasStats(d.new_) && SameKey(d.old_.key, d.new_.key))
  {
    hide Compare, SameKey, InOrder, AllRaw, Condensed, DiffsRise, HasStats;
    CondensedRises(oldRaw, olds);
    CondensedRises(newRaw, news);
    MergeIsJoin(WithStats(olds), WithStats(news));
  }
}
