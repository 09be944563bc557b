// The active edges on the heap: a doubly linked list through the edges and the
// bottom chain of the skip list, kept in step
// (cairo-bentley-ottmann.c, lines 946-1037, and cairo-skiplist.c).
module ActiveList {
  import opened Geometry
  import opened Sweep

  datatype Open = Closed | Open(right: BoEdge, top: int)

  // cairo_bo_edge_t. The position `id` in the edge array stands for the address.
  class BoEdge {
    const id: nat
    const shape: Edge
    var middle: Point
    var prev: BoEdge?
    var next: BoEdge?
    var deferred: Open
    var elt: Elt?

    constructor (id: nat, shape: Edge)
      ensures this.id == id && this.shape == shape
      ensures middle == shape.top && prev == null && next == null && deferred == Closed && elt == null
    {
      this.id, this.shape, middle := id, shape, shape.top;
      prev, next, deferred, elt := null, null, Closed, null;
    }

    function View(): Active
      reads this`middle
    {
      Active(shape, middle, id)
    }
  }

  // sweep_line_elt_t, with its link in the bottom chain.
  class Elt {
    var edge: BoEdge
    var next: Elt?

    constructor (edge: BoEdge, next: Elt?)
      ensures this.edge == edge && this.next == next
    {
      this.edge, this.next := edge, next;
    }
  }

  // The edges are linked in the order of the sequence, both ways.
  ghost predicate Linked(edges: seq<BoEdge>)
    reads edges`prev, edges`next
  {
    && (edges != [] ==> edges[0].prev == null && edges[|edges| - 1].next == null)
    && (forall i {:trigger edges[i].prev} :: 0 < i < |edges| ==> edges[i].prev == edges[i - 1])
    && (forall i {:trigger edges[i].next} :: 0 <= i < |edges| - 1 ==> edges[i].next == edges[i + 1])
  }

  ghost predicate Chained(elts: seq<Elt>)
    reads elts`next
  {
    && (elts != [] ==> elts[|elts| - 1].next == null)
    && (forall i {:trigger elts[i].next} :: 0 <= i < |elts| - 1 ==> elts[i].next == elts[i + 1])
  }

  // Element and edge at one position point at each other.
  ghost predicate Tied(elts: seq<Elt>, edges: seq<BoEdge>)
    reads elts`edge, edges`elt
  {
    && |elts| == |edges|
    && forall i :: 0 <= i < |elts| ==> elts[i].edge == edges[i] && edges[i].elt == elts[i]
  }

  lemma InsertedDistinct<T>(s: seq<T>, k: nat, x: T)
    requires Distinct(s) && x !in s && k <= |s|
    ensures Distinct(s[..k] + [x] + s[k..])
  {
  }

  // A linked list but for the links around position k, where e has been linked in.
  lemma InsertedLinked(s: seq<BoEdge>, k: nat, e: BoEdge)
    requires k <= |s|
    requires forall i {:trigger s[i].prev} :: 0 < i < |s| && i != k ==> s[i].prev == s[i - 1]
    requires forall i {:trigger s[i].next} :: 0 <= i < |s| - 1 && i + 1 != k ==> s[i].next == s[i + 1]
    requires e.prev == (if k == 0 then null else s[k - 1]) && e.next == (if k == |s| then null else s[k])
    requires k > 0 ==> s[k - 1].next == e && s[0].prev == null
    requires k < |s| ==> s[k].prev == e && s[|s| - 1].next == null
    ensures Linked(s[..k] + [e] + s[k..])
  {
    var r := s[..k] + [e] + s[k..];
    forall i | 0 < i < |r| ensures r[i].prev == r[i - 1] {
      if i > k + 1 { assert s[i - 1].prev == s[i - 2]; }
    }
    forall i | 0 <= i < |r| - 1 ensures r[i].next == r[i + 1] {
      if i > k { assert s[i - 1].next == s[i]; }
    }
  }

  lemma InsertedTied(elts: seq<Elt>, edges: seq<BoEdge>, k: nat, elt: Elt, e: BoEdge)
    requires Tied(elts, edges) && k <= |edges| && elt.edge == e && e.elt == elt
    ensures Tied(elts[..k] + [elt] + elts[k..], edges[..k] + [e] + edges[k..])
  {
  }

  lemma RemovedTied(elts: seq<Elt>, edges: seq<BoEdge>, k: nat)
    requires Tied(elts, edges) && k < |edges|
    ensures edges[k].elt == elts[k] && |elts| == |edges|
    ensures Tied(elts[..k] + elts[k + 1..], edges[..k] + edges[k + 1..])
  {
  }

  // cairo_bo_sweep_line_t
  class SweepLine {
    var chain: Elt?
    var head: BoEdge?
    var tail: BoEdge?
    var y: int
    ghost var edges: seq<BoEdge>
    ghost var elts: seq<Elt>

    // The two structures hold one sequence of edges.
    ghost predicate Valid()
      reads this, edges`prev, edges`next, edges`elt, elts`edge, elts`next
    {
      && Distinct(edges) && Distinct(elts)
      && head == (if |edges| == 0 then null else edges[0])
      && tail == (if |edges| == 0 then null else edges[|edges| - 1])
      && chain == (if |elts| == 0 then null else elts[0])
      && Linked(edges) && Chained(elts) && Tied(elts, edges)
    }

    constructor ()
      ensures Valid() && edges == [] && elts == [] && y == 0
    {
      chain, head, tail, y := null, null, null, 0;
      edges, elts := [], [];
    }

    // _cairo_skip_list_delete_given on the bottom chain.
    method Unchain(given: Elt, ghost k: nat)
      requires Distinct(elts) && Chained(elts) && chain == (if |elts| == 0 then null else elts[0])
      requires k < |elts| && elts[k] == given
      modifies this`chain, this`elts, elts`next
      ensures elts == old(elts)[..k] + old(elts)[k + 1..]
      ensures Distinct(elts) && Chained(elts) && chain == (if |elts| == 0 then null else elts[0])
    {
      if chain == given {
        assert k == 0;
        chain := given.next;
      } else {
        assert k > 0;
        var before := chain;
        ghost var i := 0;
        while before.next != given
          invariant 0 <= i < k && before == elts[i]
          decreases k - i
        {
          before := before.next;
          i := i + 1;
        }
        assert elts[i + 1] == elts[k];
        before.next := given.next;
      }
      elts := elts[..k] + elts[k + 1..];
    }

    // _cairo_bo_sweep_line_delete
    method Delete(e: BoEdge, ghost k: nat)
      requires Valid() && k < |edges| && edges[k] == e
      modifies this`chain, this`head, this`tail, this`edges, this`elts, edges`prev, edges`next, elts`next
      ensures Valid()
      ensures edges == old(edges)[..k] + old(edges)[k + 1..]
      ensures elts == old(elts)[..k] + old(elts)[k + 1..]
    {
      hide Linked, Chained, Distinct, Tied;
      RemovedTied(elts, edges, k);
      ghost var left := elts[..k] + elts[k + 1..];
      Unchain(e.elt, k);
      assert elts == left;
      Unlink(e, k);
    }

    method Unlink(e: BoEdge, ghost k: nat)
      requires Distinct(edges) && Linked(edges) && k < |edges| && edges[k] == e
      requires head == edges[0] && tail == edges[|edges| - 1]
      modifies this`head, this`tail, this`edges, edges`prev, edges`next
      ensures edges == old(edges)[..k] + old(edges)[k + 1..]
      ensures Distinct(edges) && Linked(edges)
      ensures head == (if |edges| == 0 then null else edges[0])
      ensures tail == (if |edges| == 0 then null else edges[|edges| - 1])
    {
      if e.prev != null { e.prev.next := e.next; } else { head := e.next; }
      if e.next != null { e.next.prev := e.prev; } else { tail := e.prev; }
      edges := edges[..k] + edges[k + 1..];
    }

    // The walk of _cairo_skip_list_insert along the bottom chain: past every element
    // that compares less than the new edge.
    method FindPlace(e: BoEdge) returns (before: Elt?, after: Elt?, ghost k: nat)
      requires Valid() && forall f :: f in edges ==> f.id != e.id
      ensures k <= |edges|
      ensures before == (if k == 0 then null else elts[k - 1])
      ensures after == (if k == |elts| then null else elts[k])
      ensures k > 0 ==> CompareEdges(edges[k - 1].View(), e.View(), y) < 0
      ensures k < |edges| ==> CompareEdges(edges[k].View(), e.View(), y) > 0
    {
      hide CompareX, CompareBoxes, SlopeCompare, ComparePoints;
      before, after, k := null, chain, 0;
      while after != null && CompareEdges(after.edge.View(), e.View(), y) <= 0
        invariant k <= |edges|
        invariant before == (if k == 0 then null else elts[k - 1])
        invariant after == (if k == |elts| then null else elts[k])
        invariant k > 0 ==> CompareEdges(edges[k - 1].View(), e.View(), y) < 0
        decreases |edges| - k
      {
        assert after.edge == edges[k] && edges[k] in edges;
        before, after, k := after, after.next, k + 1;
      }
    }

    method Chain(e: BoEdge, before: Elt?, after: Elt?, ghost k: nat) returns (elt: Elt)
      requires Distinct(elts) && Chained(elts) && chain == (if |elts| == 0 then null else elts[0])
      requires k <= |elts|
      requires before == (if k == 0 then null else elts[k - 1])
      requires after == (if k == |elts| then null else elts[k])
      modifies this`chain, this`elts, elts`next
      ensures fresh(elt) && elt.edge == e
      ensures elts == old(elts)[..k] + [elt] + old(elts)[k..]
      ensures Distinct(elts) && Chained(elts) && chain == (if |elts| == 0 then null else elts[0])
    {
      elt := new Elt(e, after);
      if before == null { chain := elt; } else { before.next := elt; }
      elts := elts[..k] + [elt] + elts[k..];
    }

    method Link(e: BoEdge, nextEdge: BoEdge?, ghost k: nat)
      requires Distinct(edges) && Linked(edges) && e !in edges && k <= |edges|
      requires head == (if |edges| == 0 then null else edges[0])
      requires tail == (if |edges| == 0 then null else edges[|edges| - 1])
      requires nextEdge == (if k == |edges| then null else edges[k])
      modifies this`head, this`tail, this`edges, edges`prev, edges`next, e`prev, e`next
      ensures edges == old(edges)[..k] + [e] + old(edges)[k..]
      ensures Distinct(edges) && Linked(edges)
      ensures head == (if |edges| == 0 then null else edges[0])
      ensures tail == (if |edges| == 0 then null else edges[|edges| - 1])
    {
      var prevEdge := if nextEdge != null then nextEdge.prev else tail;
      assert prevEdge == (if k == 0 then null else edges[k - 1]);
      e.prev := prevEdge;
      e.next := if prevEdge != null then prevEdge.next else head;
      assert e.next == nextEdge;
      if nextEdge != null { nextEdge.prev := e; } else { tail := e; }
      if prevEdge != null { prevEdge.next := e; } else { head := e; }
      InsertedDistinct(edges, k, e);
      InsertedLinked(edges, k, e);
      hide Linked, Distinct;
      edges := edges[..k] + [e] + edges[k..];
    }

    // Puts the edge between two neighbouring elements, in both structures.
    method PutBetween(e: BoEdge, before: Elt?, after: Elt?, ghost k: nat) returns (elt: Elt)
      requires Valid() && e !in edges && k <= |edges|
      requires before == (if k == 0 then null else elts[k - 1])
      requires after == (if k == |elts| then null else elts[k])
      modifies this`chain, this`head, this`tail, this`edges, this`elts, edges`prev, edges`next, elts`next,
               e`prev, e`next, e`elt
      ensures Valid() && edges == old(edges)[..k] + [e] + old(edges)[k..]
      ensures fresh(elt) && elts == old(elts)[..k] + [elt] + old(elts)[k..]
    {
      hide Linked, Chained, Distinct;
      var nextEdge := if after != null then after.edge else null;
      assert nextEdge == (if k == |edges| then null else edges[k]);
      ghost var oldElts, oldEdges := elts, edges;
      elt := Chain(e, before, after, k);
      e.elt := elt;
      InsertedTied(oldElts, oldEdges, k, elt, e);
      hide Tied;
      Link(e, nextEdge, k);
    }

    // _cairo_bo_sweep_line_insert
    method Insert(e: BoEdge) returns (ghost k: nat, ghost elt: Elt)
      requires Valid() && e !in edges && forall f :: f in edges ==> f.id != e.id
      modifies this`chain, this`head, this`tail, this`edges, this`elts, edges`prev, edges`next, elts`next,
               e`prev, e`next, e`elt
      ensures Valid()
      ensures k <= |old(edges)| && edges == old(edges)[..k] + [e] + old(edges)[k..]
      ensures k > 0 ==> CompareEdges(old(edges)[k - 1].View(), e.View(), y) < 0
      ensures k < |old(edges)| ==> CompareEdges(old(edges)[k].View(), e.View(), y) > 0
      ensures fresh(elt) && elts == old(elts)[..k] + [elt] + old(elts)[k..]
    {
      hide CompareEdges, Linked, Chained, Distinct, Tied;
      var before, after;
      before, after, k := FindPlace(e);
      elt := PutBetween(e, before, after, k);
    }

    // _cairo_bo_sweep_line_swap: the skip list elements stay and exchange their edges.
    method Swap(left: BoEdge, right: BoEdge, ghost k: nat)
      requires Valid() && k + 1 < |edges| && edges[k] == left && edges[k + 1] == right
      modifies this`head, this`tail, this`edges, edges`prev, edges`next, edges`elt, elts`edge
      ensures Valid()
      ensures edges == old(edges)[k := right][k + 1 := left]
    {
      hide Linked, Chained, Distinct, Tied;
      SwapElements(left, right, k);
      SwapLinks(left, right, k);
    }

    method SwapElements(left: BoEdge, right: BoEdge, ghost k: nat)
      requires Distinct(edges) && Distinct(elts) && Chained(elts) && Tied(elts, edges)
      requires k + 1 < |edges| && edges[k] == left && edges[k + 1] == right
      modifies edges`elt, elts`edge
      ensures Tied(elts, edges[k := right][k + 1 := left])
    {
      var leftElt := left.elt;
      var rightElt := leftElt.next;
      assert leftElt == elts[k] && rightElt == elts[k + 1];
      leftElt.edge := right;
      right.elt := leftElt;
      rightElt.edge := left;
      left.elt := rightElt;
    }

    method SwapLinks(left: BoEdge, right: BoEdge, ghost k: nat)
      requires Distinct(edges) && Linked(edges) && head == (if |edges| == 0 then null else edges[0])
      requires tail == (if |edges| == 0 then null else edges[|edges| - 1])
      requires k + 1 < |edges| && edges[k] == left && edges[k + 1] == right
      modifies this`head, this`tail, this`edges, edges`prev, edges`next
      ensures edges == old(edges)[k := right][k + 1 := left]
      ensures Distinct(edges) && Linked(edges)
      ensures head == (if |edges| == 0 then null else edges[0])
      ensures tail == (if |edges| == 0 then null else edges[|edges| - 1])
    {
      assert k > 0 ==> left.prev == edges[k - 1];
      assert k + 2 < |edges| ==> right.next == edges[k + 2];
      if left.prev != null { left.prev.next := right; } else { head := right; }
      if right.next != null { right.next.prev := left; } else { tail := left; }
      left.next := right.next;
      right.next := left;
      right.prev := left.prev;
      left.prev := right;
      edges := edges[k := right][k + 1 := left];
    }

    // _cairo_bo_sweep_line_validate: marches through both lists side by side.
    method Validate() returns (ok: bool)
      requires Valid()
      ensures ok
    {
      var edge, elt := head, chain;
      ghost var i := 0;
      while edge != null && elt != null
        invariant i <= |edges| && |edges| == |elts|
        invariant edge == (if i == |edges| then null else edges[i])
        invariant elt == (if i == |elts| then null else elts[i])
        decreases |edges| - i
      {
        if elt.edge != edge { return false; }
        edge, elt, i := edge.next, elt.next, i + 1;
      }
      ok := edge == null && elt == null;
    }
  }
}
