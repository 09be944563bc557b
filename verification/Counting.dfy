// Counting pairs of edges.
module Counting {
  lemma SubsetSize<T>(a: set<T>, b: set<T>)
    requires a <= b
    ensures |a| <= |b|
  {
    assert |b - a| + |a| == |b|;
  }

  lemma ProperSubset<T>(a: set<T>, b: set<T>, x: T)
    requires a <= b && x in b && x !in a
    ensures |a| < |b|
  {
    assert |b - a| + |a| == |b|;
    assert x in b - a;
  }

  lemma UnionSize<T>(a: set<T>, b: set<T>)
    requires a !! b
    ensures |a + b| == |a| + |b|
  {
  }

  // The ordered pairs of m with the numbers below k.
  ghost function PairsWith(m: nat, k: nat): set<(nat, nat)> {
    if k == 0 then {} else PairsWith(m, k - 1) + {(m, k - 1), (k - 1, m)}
  }

  lemma {:induction false} PairsWithMembers(m: nat, k: nat, q: (nat, nat))
    requires k <= m
    ensures q in PairsWith(m, k) <==> (q.0 == m && q.1 < k) || (q.1 == m && q.0 < k)
  {
    if k > 0 { PairsWithMembers(m, k - 1, q); }
  }

  lemma {:induction false} PairsWithSize(m: nat, k: nat)
    requires k <= m
    ensures |PairsWith(m, k)| == 2 * k
  {
    if k > 0 {
      PairsWithSize(m, k - 1);
      PairsWithMembers(m, k - 1, (m, k - 1));
      PairsWithMembers(m, k - 1, (k - 1, m));
      UnionSize(PairsWith(m, k - 1), {(m, k - 1), (k - 1, m)});
    }
  }

  // The ordered pairs of distinct numbers below n.
  ghost function AllPairs(n: nat): set<(nat, nat)> {
    if n == 0 then {} else AllPairs(n - 1) + PairsWith(n - 1, n - 1)
  }

  lemma {:induction false} AllPairsMembers(n: nat, q: (nat, nat))
    ensures q in AllPairs(n) <==> q.0 < n && q.1 < n && q.0 != q.1
  {
    if n > 0 {
      AllPairsMembers(n - 1, q);
      PairsWithMembers(n - 1, n - 1, q);
    }
  }

  lemma PairsAreNew(m: nat)
    ensures AllPairs(m) !! PairsWith(m, m)
  {
    hide AllPairs, PairsWith;
    forall q | q in AllPairs(m) ensures q !in PairsWith(m, m) {
      AllPairsMembers(m, q);
      PairsWithMembers(m, m, q);
    }
  }

  lemma OneMore(m: nat, n: nat)
    requires n == m + 1
    ensures m * (m - 1) + 2 * m == n * (n - 1)
  {
  }

  lemma {:induction false} AllPairsSize(n: nat)
    ensures |AllPairs(n)| == n * (n - 1)
  {
    hide PairsWith;
    if n > 0 {
      var m := n - 1;
      OneMore(m, n);
      AllPairsSize(m);
      PairsWithSize(m, m);
      PairsAreNew(m);
      UnionSize(AllPairs(m), PairsWith(m, m));
    }
  }

  ghost function Mirror(p: set<(nat, nat)>): set<(nat, nat)> {
    set q | q in p :: (q.1, q.0)
  }

  lemma {:induction false} MirrorSize(p: set<(nat, nat)>)
    ensures |Mirror(p)| == |p|
    decreases p
  {
    if p != {} {
      var q :| q in p;
      MirrorSize(p - {q});
      assert Mirror(p) == Mirror(p - {q}) + {(q.1, q.0)};
    }
  }

  // Holding at most one of (a, b) and (b, a): at most half of the ordered pairs.
  lemma OneOfEachPair(p: set<(nat, nat)>, n: nat)
    requires forall a: nat, b: nat :: (a, b) in p ==> a < n && b < n && a != b && (b, a) !in p
    ensures 2 * |p| <= n * (n - 1)
  {
    var all := AllPairs(n);
    AllPairsSize(n);
    MirrorSize(p);
    forall q | q in p ensures q in all && (q.1, q.0) in all && q !in Mirror(p) {
      assert (q.0, q.1) in p;
      AllPairsMembers(n, q);
      AllPairsMembers(n, (q.1, q.0));
    }
    assert p !! Mirror(p);
    assert |p + Mirror(p)| == |p| + |Mirror(p)|;
    SubsetSize(p + Mirror(p), all);
  }
}
