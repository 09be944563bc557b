// The upper levels of the skip list: the walk down through them and what inserting and
// deleting make of them, whatever the comparisons answer
// (cairo-skiplist.c, lines 313-383 and 448-485).
module SkipList {
  // The elements of one level, as their positions in the bottom chain.
  type Chain = seq<nat>

  predicate Rising(chain: Chain) {
    forall i, j :: 0 <= i < j < |chain| ==> chain[i] < chain[j]
  }

  predicate SubChain(upper: Chain, lower: Chain) {
    forall p :: p in upper ==> p in lower
  }

  // Every level in order and within the one below it, the bottom one holding all n
  // elements and the top one holding some.
  predicate Levels(levels: seq<Chain>, n: nat) {
    && (levels == [] <==> n == 0)
    && (forall i :: 0 <= i < |levels| ==> Rising(levels[i]) && levels[i] != [])
    && (forall i, p :: 0 <= i < |levels| && p in levels[i] ==> p < n)
    && (levels != [] ==> forall p :: 0 <= p < n ==> p in levels[0])
    && (forall i :: 0 < i < |levels| ==> SubChain(levels[i], levels[i - 1]))
  }

  // How many elements of the chain come before position k.
  function Place(chain: Chain, k: nat): (u: nat)
    ensures u <= |chain|
  {
    if chain == [] || chain[0] >= k then 0 else 1 + Place(chain[1..], k)
  }

  lemma {:induction false} PlaceSplits(chain: Chain, k: nat)
    requires Rising(chain)
    ensures forall j :: 0 <= j < Place(chain, k) ==> chain[j] < k
    ensures forall j :: Place(chain, k) <= j < |chain| ==> chain[j] >= k
  {
    if chain != [] && chain[0] < k {
      PlaceSplits(chain[1..], k);
      forall j | 0 <= j < Place(chain, k) ensures chain[j] < k {
        if j > 0 { assert chain[j] == chain[1..][j - 1]; }
      }
      forall j | Place(chain, k) <= j < |chain| ensures chain[j] >= k {
        assert chain[j] == chain[1..][j - 1];
      }
    }
  }

  // The next element of the chain from position k on; n when there is none.
  function NextOn(chain: Chain, k: nat, n: nat): nat {
    if Place(chain, k) < |chain| then chain[Place(chain, k)] else n
  }

  lemma NextIsFirst(chain: Chain, k: nat, n: nat)
    requires Rising(chain) && k <= n && forall p :: p in chain ==> p < n
    ensures k <= NextOn(chain, k, n) <= n
    ensures NextOn(chain, k, n) < n <==> exists p :: p in chain && p >= k
    ensures NextOn(chain, k, n) < n ==> NextOn(chain, k, n) in chain
    ensures forall p :: p in chain && k <= p ==> NextOn(chain, k, n) <= p
  {
    PlaceSplits(chain, k);
    if Place(chain, k) < |chain| { assert chain[Place(chain, k)] in chain; }
  }

  lemma PlaceIs(chain: Chain, k: nat, l: nat)
    requires Rising(chain) && k <= l && forall p :: p in chain ==> p < k || l <= p
    ensures Place(chain, k) == Place(chain, l)
  {
    PlaceSplits(chain, k);
    PlaceSplits(chain, l);
    forall j | 0 <= j < |chain| ensures chain[j] < k || l <= chain[j] {
      assert chain[j] in chain;
    }
  }

  // No element of the chain lies between the link and elt.
  predicate Closed(chain: Chain, link: nat, elt: nat) {
    forall p :: p in chain ==> p < link || elt <= p
  }

  // The inner loop, along one level from position k: past every element that compares
  // less. Nothing is compared when the next element is the one just found greater.
  method Walk(compares: seq<int>, chain: Chain, from: nat, above: nat) returns (k: nat, elt: nat)
    requires Rising(chain) && forall p :: p in chain ==> p < |compares|
    requires from <= above <= |compares|
    requires above < |compares| ==> compares[above] > 0 && above in chain
    requires from > 0 ==> compares[from - 1] < 0 && from - 1 in chain
    ensures from <= k <= elt <= above
    ensures k > 0 ==> compares[k - 1] < 0 && k - 1 in chain
    ensures elt < |compares| ==> compares[elt] >= 0 && elt in chain
    ensures Closed(chain, k, elt)
  {
    hide Place, NextOn, Rising;
    var n := |compares|;
    k, elt := from, above;
    NextIsFirst(chain, k, n);
    if elt != NextOn(chain, k, n) {
      elt := NextOn(chain, k, n);
      while elt < n && compares[elt] < 0
        invariant from <= k <= elt <= above && elt == NextOn(chain, k, n)
        invariant k > 0 ==> compares[k - 1] < 0 && k - 1 in chain
        invariant elt < n ==> elt in chain
        invariant Closed(chain, k, elt)
        decreases n - k
      {
        NextIsFirst(chain, elt + 1, n);
        k, elt := elt + 1, NextOn(chain, elt + 1, n);
      }
    }
  }

  // The links remembered from the top level down to level i, and how far the walk had
  // come at each: nothing lies between there and elt.
  predicate Remembered(levels: seq<Chain>, i: nat, links: seq<nat>, update: seq<nat>, k: nat, elt: nat) {
    && i <= |levels| && |links| == |update| == |levels| - i
    && forall j :: 0 <= j < |links| ==>
         links[j] <= k && Closed(levels[i + j], links[j], elt) && update[j] == Place(levels[i + j], links[j])
  }

  lemma OneMoreLink(levels: seq<Chain>, i: nat, links: seq<nat>, update: seq<nat>, from: nat, above: nat, k: nat,
                    elt: nat)
    requires Remembered(levels, i + 1, links, update, from, above)
    requires from <= k && elt <= above && Closed(levels[i], k, elt)
    ensures Remembered(levels, i, [k] + links, [Place(levels[i], k)] + update, k, elt)
  {
    hide Place;
    var r, u := [k] + links, [Place(levels[i], k)] + update;
    forall j | 0 <= j < |r|
      ensures r[j] <= k && Closed(levels[i + j], r[j], elt) && u[j] == Place(levels[i + j], r[j])
    {
      if j > 0 { assert Closed(levels[i + 1 + (j - 1)], links[j - 1], above); }
    }
  }

  // In the end every remembered link is over the place found.
  lemma LinksAreAtPlace(levels: seq<Chain>, n: nat, links: seq<nat>, update: seq<nat>, k: nat)
    requires Levels(levels, n) && Remembered(levels, 0, links, update, k, k)
    ensures LinksAt(levels, k, update)
  {
    hide Place, Rising;
    forall i | 0 <= i < |levels| ensures update[i] == Place(levels[i], k) {
      assert Closed(levels[0 + i], links[i], k) && update[i] == Place(levels[0 + i], links[i]);
      PlaceIs(levels[i], links[i], k);
    }
  }

  // The links over position k at every level.
  predicate LinksAt(levels: seq<Chain>, k: nat, update: seq<nat>) {
    && |update| == |levels|
    && forall i :: 0 <= i < |levels| ==> update[i] == Place(levels[i], k) && update[i] <= |levels[i]|
  }

  lemma LevelParts(levels: seq<Chain>, n: nat, i: nat)
    requires Levels(levels, n) && i < |levels|
    ensures Rising(levels[i]) && forall p :: p in levels[i] ==> p < n
    ensures i > 0 ==> forall p :: p in levels[i] ==> p in levels[i - 1]
    ensures i == 0 ==> forall p :: 0 <= p < n ==> p in levels[0]
  {
    assert i > 0 ==> SubChain(levels[i], levels[i - 1]);
  }

  // The order of the elements is one, and the new one has a place in it.
  predicate Consistent(compares: seq<int>) {
    forall i, j :: 0 <= i < j < |compares| && compares[i] >= 0 ==> compares[j] > 0
  }

  // The search of _cairo_skip_list_insert for a unique element; compares says how each
  // element compares with it. However they do, the search ends at an equal element, or
  // between one that compares less and one that compares greater, and then the links it
  // remembers are those over that place at every level. In a consistent order it misses
  // no equal element.
  method FindLinks(compares: seq<int>, levels: seq<Chain>) returns (found: bool, k: nat, update: seq<nat>)
    requires Levels(levels, |compares|)
    ensures k <= |compares|
    ensures found ==> k < |compares| && compares[k] == 0
    ensures !found && k > 0 ==> compares[k - 1] < 0
    ensures !found && k < |compares| ==> compares[k] > 0
    ensures !found ==> LinksAt(levels, k, update)
    ensures Consistent(compares) ==> (found <==> exists p :: 0 <= p < |compares| && compares[p] == 0)
  {
    hide Place, Rising, Levels, Remembered, LinksAt, SubChain, Closed;
    var n := |compares|;
    var elt := n;
    found, k, update := false, 0, [];
    ghost var links: seq<nat> := [];
    NothingRemembered(levels, n);
    for i := |levels| downto 0
      invariant k <= elt <= n
      invariant k > 0 ==> compares[k - 1] < 0 && (i > 0 ==> k - 1 in levels[i - 1])
      invariant elt < n ==> compares[elt] > 0 && (i > 0 ==> elt in levels[i - 1])
      invariant Remembered(levels, i, links, update, k, elt)
      invariant i == 0 ==> k == elt
    {
      ghost var from, above := k, elt;
      LevelParts(levels, n, i);
      k, elt := Walk(compares, levels[i], k, elt);
      if elt < n && compares[elt] == 0 { return true, elt, update; }
      OneMoreLink(levels, i, links, update, from, above, k, elt);
      update, links := [Place(levels[i], k)] + update, [k] + links;
      if i == 0 { AllAtBottom(levels[0], n, k, elt); }
    }
    LinksAreAtPlace(levels, n, links, update, k);
  }

  lemma AllAtBottom(chain: Chain, n: nat, k: nat, elt: nat)
    requires k <= elt <= n && Closed(chain, k, elt) && forall p :: 0 <= p < n ==> p in chain
    ensures k == elt
  {
    if k < n { assert k in chain; }
  }

  lemma NothingRemembered(levels: seq<Chain>, n: nat)
    requires Levels(levels, n)
    ensures Remembered(levels, |levels|, [], [], 0, n) && (levels == [] ==> n == 0)
  {
  }

  // ---- What inserting and deleting make of the levels ----

  // The chain after an element has been linked in over the first u, at position k.
  function LinkedIn(chain: Chain, u: nat, k: nat): Chain
    requires u <= |chain|
  {
    chain[..u] + [k] + MovedUp(chain[u..])
  }

  // The positions after one has come in before them.
  function MovedUp(chain: Chain): Chain {
    seq(|chain|, i requires 0 <= i < |chain| => chain[i] + 1)
  }

  // A chain the element is not linked into.
  function MovedOver(chain: Chain, u: nat): Chain
    requires u <= |chain|
  {
    chain[..u] + MovedUp(chain[u..])
  }

  // The new element goes into the lowest `height` levels, of which the last may be new.
  function Inserted(levels: seq<Chain>, update: seq<nat>, k: nat, height: nat): seq<Chain>
    requires |update| == |levels| && forall i :: 0 <= i < |levels| ==> update[i] <= |levels[i]|
  {
    seq(if height > |levels| then |levels| + 1 else |levels|, i requires 0 <= i <= |levels| =>
      if i == |levels| then [k]
      else if i < height then LinkedIn(levels[i], update[i], k)
      else MovedOver(levels[i], update[i]))
  }

  // The elements on either side of a place.
  lemma PlaceMembers(chain: Chain, k: nat)
    requires Rising(chain)
    ensures var below, beyond := chain[..Place(chain, k)], chain[Place(chain, k)..];
      && Rising(below) && Rising(beyond)
      && (forall p :: p in below <==> p in chain && p < k)
      && (forall p :: p in beyond <==> p in chain && p >= k)
  {
    PlaceSplits(chain, k);
    hide Place;
    SplitMembers(chain, Place(chain, k), k);
    SplitRises(chain, Place(chain, k));
  }

  lemma SplitRises(chain: Chain, u: nat)
    requires Rising(chain) && u <= |chain|
    ensures Rising(chain[..u]) && Rising(chain[u..])
  {
  }

  lemma SplitMembers(chain: Chain, u: nat, k: nat)
    requires u <= |chain|
    requires (forall j :: 0 <= j < u ==> chain[j] < k) && (forall j :: u <= j < |chain| ==> chain[j] >= k)
    ensures forall p :: p in chain[..u] <==> p in chain && p < k
    ensures forall p :: p in chain[u..] <==> p in chain && p >= k
  {
    var below, beyond := chain[..u], chain[u..];
    assert chain == below + beyond;
    assert forall p :: p in below ==> p < k;
    assert forall p :: p in beyond ==> p >= k;
  }

  lemma MovedUpMembers(chain: Chain)
    requires Rising(chain)
    ensures Rising(MovedUp(chain)) && forall p: nat :: p in MovedUp(chain) <==> p > 0 && p - 1 in chain
  {
    forall p | p in chain ensures p + 1 in MovedUp(chain) {
      var j :| 0 <= j < |chain| && chain[j] == p;
      assert MovedUp(chain)[j] == p + 1;
    }
  }

  lemma JoinedRises(a: Chain, b: Chain)
    requires Rising(a) && Rising(b) && forall p, q :: p in a && q in b ==> p < q
    ensures Rising(a + b) && forall p :: p in a + b <==> p in a || p in b
  {
    var r := a + b;
    forall i, j | 0 <= i < j < |r| ensures r[i] < r[j] {
      if i < |a| <= j { assert a[i] in a && b[j - |a|] in b; }
    }
  }

  // An element of the chain is at position p once one has come in at k.
  predicate MovedInto(chain: Chain, k: nat, p: nat) {
    (p < k && p in chain) || (p > k && p - 1 in chain)
  }

  lemma LinkedInChain(chain: Chain, k: nat)
    requires Rising(chain)
    ensures var r := LinkedIn(chain, Place(chain, k), k);
      && Rising(r) && r != []
      && forall p :: p in r <==> p == k || MovedInto(chain, k, p)
  {
    hide Place, Rising, MovedUp;
    PlaceMembers(chain, k);
    var below, beyond := chain[..Place(chain, k)], chain[Place(chain, k)..];
    MovedUpMembers(beyond);
    SingleRises(k);
    JoinedRises(below, [k]);
    JoinedRises(below + [k], MovedUp(beyond));
    assert k in LinkedIn(chain, Place(chain, k), k);
  }

  lemma SingleRises(k: nat)
    ensures Rising([k])
  {
  }

  lemma MovedChain(chain: Chain, k: nat)
    requires Rising(chain)
    ensures var r := MovedOver(chain, Place(chain, k));
      && Rising(r) && |r| == |chain|
      && forall p :: p in r <==> MovedInto(chain, k, p)
  {
    PlaceMembers(chain, k);
    MovedUpMembers(chain[Place(chain, k)..]);
    hide Place, Rising;
    JoinedRises(chain[..Place(chain, k)], MovedUp(chain[Place(chain, k)..]));
  }

  lemma LevelAfterInsert(levels: seq<Chain>, update: seq<nat>, k: nat, height: nat, i: nat)
    requires LinksAt(levels, k, update) && forall j :: 0 <= j < |levels| ==> Rising(levels[j]) && levels[j] != []
    requires i < |Inserted(levels, update, k, height)|
    ensures var r := Inserted(levels, update, k, height)[i];
      Rising(r) && r != [] && forall p :: p in r <==> AfterInsert(levels, i, k, height, p)
  {
    hide Place, Rising, LinkedIn, MovedOver;
    if i == |levels| {
      SingleRises(k);
    } else if i < height {
      LinkedInChain(levels[i], k);
      assert Inserted(levels, update, k, height)[i] == LinkedIn(levels[i], Place(levels[i], k), k);
    } else {
      MovedChain(levels[i], k);
      assert Inserted(levels, update, k, height)[i] == MovedOver(levels[i], Place(levels[i], k));
    }
  }

  // With the links found by the search every level stays in order and within the one
  // below it, and holds what it held and, up to its height, the new element.
  lemma InsertKeepsLevels(levels: seq<Chain>, n: nat, update: seq<nat>, k: nat, height: nat)
    requires Levels(levels, n) && k <= n && 1 <= height <= |levels| + 1 && LinksAt(levels, k, update)
    ensures Levels(Inserted(levels, update, k, height), n + 1)
    ensures forall i, p :: 0 <= i < |Inserted(levels, update, k, height)| ==>
              (p in Inserted(levels, update, k, height)[i] <==> AfterInsert(levels, i, k, height, p))
  {
    hide Place, Rising, LinkedIn, MovedOver;
    var r := Inserted(levels, update, k, height);
    forall i | 0 <= i < |r|
      ensures Rising(r[i]) && r[i] != [] && forall p :: p in r[i] <==> AfterInsert(levels, i, k, height, p)
    {
      LevelAfterInsert(levels, update, k, height, i);
    }
    forall i | 0 < i < |r| ensures SubChain(r[i], r[i - 1]) {
      if i < |levels| { assert SubChain(levels[i], levels[i - 1]); }
    }
  }

  predicate AfterInsert(levels: seq<Chain>, i: nat, k: nat, height: nat, p: nat) {
    (i < height && p == k) || (i < |levels| && MovedInto(levels[i], k, p))
  }

  // ---- Deleting ----

  function MovedDown(chain: Chain): Chain {
    seq(|chain|, i requires 0 <= i < |chain| => if chain[i] > 0 then chain[i] - 1 else 0)
  }

  // The chain without position k, if it is there.
  function Unlinked(chain: Chain, k: nat): Chain {
    var u := Place(chain, k);
    chain[..u] + MovedDown(if u < |chain| && chain[u] == k then chain[u + 1..] else chain[u..])
  }

  // The loop that lowers max_level.
  function Trimmed(levels: seq<Chain>): seq<Chain> {
    if levels != [] && levels[|levels| - 1] == [] then Trimmed(levels[..|levels| - 1]) else levels
  }

  // _cairo_skip_list_delete_given
  function Deleted(levels: seq<Chain>, k: nat): seq<Chain> {
    Trimmed(seq(|levels|, i requires 0 <= i < |levels| => Unlinked(levels[i], k)))
  }

  // An element of the chain is at position p once the one at k is gone.
  predicate LeftAt(chain: Chain, k: nat, p: nat) {
    if p < k then p in chain else p + 1 in chain
  }

  // The element now at p was after the one at k.
  predicate MovedFrom(chain: Chain, k: nat, p: nat) {
    p >= k && p + 1 in chain
  }

  lemma MovedDownMembers(chain: Chain, k: nat)
    requires Rising(chain) && forall p :: p in chain ==> p > k
    ensures Rising(MovedDown(chain)) && forall p :: p in MovedDown(chain) <==> MovedFrom(chain, k, p)
  {
    var r := MovedDown(chain);
    forall j | 0 <= j < |chain| ensures chain[j] > k && r[j] == chain[j] - 1 { assert chain[j] in chain; }
    forall p: nat | MovedFrom(chain, k, p) ensures p in r {
      var j :| 0 <= j < |chain| && chain[j] == p + 1;
      assert r[j] == p;
    }
  }

  lemma BeyondWithout(chain: Chain, k: nat)
    requires Rising(chain) && forall p :: p in chain ==> p >= k
    ensures var rest := if chain != [] && chain[0] == k then chain[1..] else chain;
      Rising(rest) && forall p :: p in rest <==> p in chain && p > k
  {
    if chain != [] {
      assert chain[0] in chain;
      assert chain == [chain[0]] + chain[1..];
      forall p | p in chain[1..] ensures p > k {
        var j :| 0 <= j < |chain[1..]| && chain[1..][j] == p;
        assert chain[j + 1] == p;
      }
    }
  }

  lemma PastPlace(chain: Chain, k: nat)
    requires Rising(chain)
    ensures var u := Place(chain, k);
      var rest := if u < |chain| && chain[u] == k then chain[u + 1..] else chain[u..];
      Rising(rest) && forall p :: p in rest <==> p in chain && p > k
  {
    PlaceMembers(chain, k);
    hide Place, Rising;
    var u := Place(chain, k);
    BeyondWithout(chain[u..], k);
    if u < |chain| { assert chain[u] == chain[u..][0] && chain[u + 1..] == chain[u..][1..]; }
  }

  lemma UnlinkedChain(chain: Chain, k: nat)
    requires Rising(chain)
    ensures Rising(Unlinked(chain, k)) && forall p :: p in Unlinked(chain, k) <==> LeftAt(chain, k, p)
  {
    PlaceMembers(chain, k);
    PastPlace(chain, k);
    hide Place, Rising, MovedDown;
    var u := Place(chain, k);
    var rest := if u < |chain| && chain[u] == k then chain[u + 1..] else chain[u..];
    MovedDownMembers(rest, k);
    JoinedRises(chain[..u], MovedDown(rest));
    assert Unlinked(chain, k) == chain[..u] + MovedDown(rest);
  }

  // Levels of which the upper ones may be empty.
  predicate Nested(levels: seq<Chain>, n: nat) {
    && (levels == [] ==> n == 0)
    && (forall i :: 0 <= i < |levels| ==> Rising(levels[i]))
    && (forall i, p :: 0 <= i < |levels| && p in levels[i] ==> p < n)
    && (levels != [] ==> forall p :: 0 <= p < n ==> p in levels[0])
    && (forall i :: 0 < i < |levels| ==> SubChain(levels[i], levels[i - 1]))
  }

  // The loop stops at the first level that holds something: none below that is empty.
  lemma {:induction false} TrimmedLevels(levels: seq<Chain>, n: nat)
    requires Nested(levels, n)
    ensures Levels(Trimmed(levels), n) && Trimmed(levels) <= levels
    ensures forall i :: |Trimmed(levels)| <= i < |levels| ==> levels[i] == []
  {
    hide Rising;
    var top := |levels| - 1;
    if levels != [] && levels[top] == [] {
      assert n > 0 ==> 0 in levels[0];
      TrimmedLevels(levels[..top], n);
    } else if levels != [] {
      NoneEmpty(levels, n, 0);
      assert levels[top][0] in levels[top];
    }
  }

  lemma {:induction false} NoneEmpty(levels: seq<Chain>, n: nat, i: nat)
    requires Nested(levels, n) && i < |levels| && levels[|levels| - 1] != []
    ensures forall j :: i <= j < |levels| ==> levels[j] != []
    decreases |levels| - i
  {
    hide Rising;
    if i + 1 < |levels| {
      NoneEmpty(levels, n, i + 1);
      assert SubChain(levels[i + 1], levels[i + 1 - 1]) && levels[i + 1][0] in levels[i + 1];
    }
  }

  // Deleting keeps the levels too, takes the one element out of them, and drops those
  // that held nothing else.
  lemma DeleteKeepsLevels(levels: seq<Chain>, n: nat, k: nat)
    requires Levels(levels, n) && k < n
    ensures Levels(Deleted(levels, k), n - 1) && |Deleted(levels, k)| <= |levels|
    ensures forall i, p :: 0 <= i < |levels| ==>
              (LeftAt(levels[i], k, p) <==> i < |Deleted(levels, k)| && p in Deleted(levels, k)[i])
  {
    hide Rising, Unlinked;
    var r := seq(|levels|, i requires 0 <= i < |levels| => Unlinked(levels[i], k));
    forall i | 0 <= i < |levels|
      ensures Rising(r[i]) && forall p :: p in r[i] <==> LeftAt(levels[i], k, p)
    {
      UnlinkedChain(levels[i], k);
    }
    forall i | 0 < i < |r| ensures SubChain(r[i], r[i - 1]) {
      assert SubChain(levels[i], levels[i - 1]);
    }
    TrimmedLevels(r, n - 1);
  }
}
