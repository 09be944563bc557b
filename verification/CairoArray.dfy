// The growable array and its snapshots (cairo-array.c, lines 40-350).
module CairoArray {
  const INT_MAX: int := 0x7FFF_FFFF
  const UINT_SIZE: int := 0x1_0000_0000

  // Undefined is no status of the source: it stands for following a null pointer.
  datatype Status = Success | NoMemory | Undefined

  datatype Option<T> = None | Some(value: T)

  // ---- Capacities ----

  predicate IsPower(n: nat) {
    n == 1 || (n % 2 == 0 && n > 0 && IsPower(n / 2))
  }

  // The doubling loop of _cairo_array_grow_by.
  function Doubled(size: nat, required: nat): (r: nat)
    requires size > 0
    ensures r >= required && r >= size
    decreases required - size
  {
    if size < required then Doubled(size * 2, required) else size
  }

  function Capacity(size: nat, required: nat): nat {
    if required <= size then size else Doubled(if size == 0 then 1 else size * 2, required)
  }

  lemma {:induction false} DoubledIsLeast(size: nat, required: nat)
    requires IsPower(size) && size < 2 * required
    ensures IsPower(Doubled(size, required)) && required <= Doubled(size, required) < 2 * required
    decreases required - size
  {
    if size < required {
      assert size * 2 / 2 == size;
      DoubledIsLeast(size * 2, required);
    }
  }

  lemma {:induction false} PowersApart(a: nat, b: nat)
    requires IsPower(a) && IsPower(b) && a < b
    ensures 2 * a <= b
    decreases a
  {
    if a > 1 {
      PowersApart(a / 2, b / 2);
    }
  }

  // Growing gives the least power of two that is enough, and within 32 bits for any
  // request the overflow check lets through.
  lemma CapacityIsLeastPower(size: nat, required: nat, p: nat)
    requires (size == 0 || IsPower(size)) && size < required <= INT_MAX
    ensures var c := Capacity(size, required);
      && IsPower(c) && required <= c < UINT_SIZE
      && (IsPower(p) && required <= p ==> c <= p)
  {
    var start := if size == 0 then 1 else size * 2;
    if size > 0 { assert size * 2 / 2 == size; }
    DoubledIsLeast(start, required);
    var c := Capacity(size, required);
    if IsPower(p) && required <= p < c {
      PowersApart(p, c);
    }
  }

  // ---- What copying costs ----

  // Sizes as they develop, and the elements moved by reallocation.
  datatype Ledger = Ledger(size: nat, count: nat, copied: nat)

  function Charge(l: Ledger, n: nat): Ledger {
    var c := Capacity(l.size, l.count + n);
    Ledger(c, l.count + n, if c == l.size then l.copied else l.copied + l.size)
  }

  function ChargeAll(ns: seq<nat>): Ledger {
    if ns == [] then Ledger(0, 0, 0) else Charge(ChargeAll(ns[..|ns| - 1]), ns[|ns| - 1])
  }

  function Total(ns: seq<nat>): nat {
    if ns == [] then 0 else Total(ns[..|ns| - 1]) + ns[|ns| - 1]
  }

  // Appends of any sizes move fewer elements in all than twice what they append, and
  // leave fewer than twice as many places as elements.
  lemma {:induction false} AppendsAreCheap(ns: seq<nat>)
    ensures var l := ChargeAll(ns);
      && l.count == Total(ns)
      && (l.size == 0 || IsPower(l.size)) && l.count <= l.size
      && (if l.size == 0 then l.copied == 0 && l.count == 0 else l.copied < l.size < 2 * l.count)
  {
    if ns != [] {
      var n := |ns| - 1;
      AppendsAreCheap(ns[..n]);
      var l := ChargeAll(ns[..n]);
      var required := l.count + ns[n];
      if required > l.size {
        var start := if l.size == 0 then 1 else l.size * 2;
        if l.size > 0 { assert l.size * 2 / 2 == l.size; }
        DoubledIsLeast(start, required);
      }
    }
  }

  // ---- What a snapshot shows ----

  // Appending to an array of `at` elements writes over what lies there in the block.
  function Overwritten<T>(seen: seq<T>, at: nat, items: seq<T>): (r: seq<T>)
    ensures |r| == |seen|
  {
    seq(|seen|, i requires 0 <= i < |seen| => if at <= i < at + |items| then items[i - at] else seen[i])
  }

  lemma OverwrittenParts<T>(seen: seq<T>, at: nat, items: seq<T>, n: nat)
    requires n <= |seen|
    ensures Overwritten(seen, at, items)[..n] == Overwritten(seen[..n], at, items)
    ensures at + |items| <= |seen| ==> Overwritten(seen, at, items)[..at + |items|] == seen[..at] + items
    ensures items == [] ==> Overwritten(seen, at, items) == seen
  {
  }

  datatype Change<T> = Added(items: seq<T>) | Cut(count: nat)

  // The number of elements of an array, and what one of its snapshots shows.
  datatype View<T> = View(count: nat, seen: seq<T>)

  function Changed<T>(v: View<T>, c: Change<T>): View<T> {
    match c
    case Added(items) => View(v.count + |items|, Overwritten(v.seen, v.count, items))
    case Cut(count) => v.(count := if count < v.count then count else v.count)
  }

  function ChangedAll<T>(v: View<T>, changes: seq<Change<T>>): View<T> {
    if changes == [] then v
    else Changed(ChangedAll(v, changes[..|changes| - 1]), changes[|changes| - 1])
  }

  // When a snapshot is taken it shows the whole array.
  function JustTaken<T>(seen: seq<T>): View<T> {
    View(|seen|, seen)
  }

  predicate NeverCutBelow<T>(count: nat, changes: seq<Change<T>>) {
    forall i :: 0 <= i < |changes| && changes[i].Cut? ==> changes[i].count >= count
  }

  lemma {:induction false} NotCutIsKept<T>(seen: seq<T>, changes: seq<Change<T>>)
    requires NeverCutBelow(|seen|, changes)
    ensures ChangedAll(JustTaken(seen), changes).seen == seen
    ensures ChangedAll(JustTaken(seen), changes).count >= |seen|
  {
    if changes != [] {
      NotCutIsKept(seen, changes[..|changes| - 1]);
    }
  }

  // An append can change what is shown if and only if the array is shorter than it.
  lemma OverwrittenExactly<T(!new)>(seen: seq<T>, at: nat, a: T, b: T)
    requires a != b
    ensures (forall items: seq<T> :: Overwritten(seen, at, items) == seen) <==> at >= |seen|
  {
    if at < |seen| {
      var x := if seen[at] == a then b else a;
      assert Overwritten(seen, at, [x])[at] == x;
    }
  }

  lemma AddedLast<T>(v: View<T>, changes: seq<Change<T>>, items: seq<T>)
    ensures ChangedAll(v, changes + [Added(items)]).seen
         == Overwritten(ChangedAll(v, changes).seen, ChangedAll(v, changes).count, items)
  {
    var c := changes + [Added(items)];
    assert c[..|changes|] == changes && c[|changes|] == Added(items);
  }

  // What an append at some time in a history would leave a snapshot showing.
  ghost predicate Kept<T(!new)>(seen: seq<T>, changes: seq<Change<T>>, i: nat)
    requires i <= |changes|
  {
    forall items: seq<T> :: ChangedAll(JustTaken(seen), changes[..i] + [Added(items)]).seen == seen
  }

  lemma {:induction false} CutShows<T(!new)>(seen: seq<T>, changes: seq<Change<T>>, a: T, b: T) returns (i: nat)
    requires a != b && !NeverCutBelow(|seen|, changes)
    ensures i <= |changes| && !Kept(seen, changes, i)
  {
    var n := |changes| - 1;
    if NeverCutBelow(|seen|, changes[..n]) {
      i := n + 1;
      assert changes[..i] == changes;
      NotCutIsKept(seen, changes[..n]);
      var v := ChangedAll(JustTaken(seen), changes);
      OverwrittenExactly(seen, v.count, a, b);
      var items :| Overwritten(seen, v.count, items) != seen;
      AddedLast(JustTaken(seen), changes, items);
    } else {
      i := CutShows(seen, changes[..n], a, b);
      assert changes[..n][..i] == changes[..i];
    }
  }

  // The snapshot is immutable, whatever is appended and whenever, if and only if the
  // array is never truncated below its count.
  lemma KeptExactly<T(!new)>(seen: seq<T>, changes: seq<Change<T>>, a: T, b: T)
    requires a != b
    ensures (forall i :: 0 <= i <= |changes| ==> Kept(seen, changes, i)) <==> NeverCutBelow(|seen|, changes)
  {
    if NeverCutBelow(|seen|, changes) {
      forall i | 0 <= i <= |changes| ensures Kept(seen, changes, i) {
        NotCutIsKept(seen, changes[..i]);
        forall items: seq<T> ensures ChangedAll(JustTaken(seen), changes[..i] + [Added(items)]).seen == seen {
          AddedLast(JustTaken(seen), changes[..i], items);
        }
      }
    } else {
      var i := CutShows(seen, changes, a, b);
    }
  }

  // ---- The array on the heap ----

  // What array->elements points to: the current block, empty for NULL.
  class Storage<T(0)> {
    var block: array<T>

    constructor ()
      ensures fresh(block) && block.Length == 0
    {
      block := new T[0];
    }
  }

  // cairo_array_t
  class CairoArray<T(0)> {
    var size: nat
    var numElements: nat
    var elements: Storage?<T>
    var isSnapshot: bool
    ghost var snapshots: set<CairoArray<T>>   // all ever taken of this array
    ghost var copied: nat                     // elements moved by reallocation

    ghost predicate Valid()
      reads this, elements, snapshots
    {
      && !isSnapshot && this !in snapshots
      && numElements <= size && numElements <= INT_MAX
      && (size == 0 || IsPower(size))
      && size == (if elements == null then 0 else elements.block.Length)
      && forall s :: s in snapshots ==> s.SnapshotOf(this)
    }

    ghost predicate SnapshotOf(a: CairoArray<T>)
      reads this, a, a.elements
    {
      && isSnapshot && numElements <= a.size && numElements <= INT_MAX
      && (numElements == 0 || elements == a.elements)
      && (numElements > 0 ==> elements != null && numElements <= elements.block.Length)
    }

    ghost function Contents(): seq<T>
      requires numElements <= if elements == null then 0 else elements.block.Length
      reads this, elements, if elements == null then {} else {elements.block}
    {
      if elements == null then [] else elements.block[..numElements]
    }

    // How many elements there are, and what a snapshot of them shows.
    ghost function Shown(s: CairoArray<T>): View<T>
      requires Valid() && s in snapshots
      reads this, elements, snapshots, s.elements, if s.elements == null then {} else {s.elements.block}
    {
      View(numElements, s.Contents())
    }

    // _cairo_array_init
    constructor ()
      ensures Valid() && Contents() == [] && snapshots == {} && size == 0 && copied == 0 && elements == null
    {
      size, numElements, elements, isSnapshot := 0, 0, null, false;
      snapshots, copied := {}, 0;
    }

    // The body of _cairo_array_init_snapshot
    constructor Copy(size: nat, numElements: nat, elements: Storage?<T>)
      ensures this.size == size && this.numElements == numElements && this.elements == elements && isSnapshot
    {
      this.size, this.numElements, this.elements, isSnapshot := size, numElements, elements, true;
      snapshots, copied := {}, 0;
    }

    // What an operation that only adds at the end leaves alone: everything in the block,
    // and with it what every snapshot shows.
    twostate predicate Keeps()
      reads this, elements, snapshots
      reads if elements == null then {} else {elements.block}
    {
      && old(Valid()) && Valid()
      && (old(elements) != null ==> elements == old(elements))
      && snapshots == old(snapshots)
      && old(size) <= size
      && (old(elements) != null ==> elements.block[..old(size)] == old(elements.block[..]))
    }

    // _cairo_array_init_snapshot
    method Snapshot() returns (s: CairoArray<T>)
      requires Valid()
      modifies `snapshots
      ensures Valid() && fresh(s) && snapshots == old(snapshots) + {s} && s.SnapshotOf(this)
      ensures s.size == size && s.numElements == numElements && s.elements == elements
      ensures s.Contents() == Contents() == old(Contents())
      ensures Shown(s) == JustTaken(Contents())
    {
      s := new CairoArray.Copy(size, numElements, elements);
      snapshots := snapshots + {s};
    }

    // The loop of _cairo_array_grow_by
    method DoubleUntil(newSize: nat, required: nat) returns (r: nat)
      requires newSize > 0
      ensures r == Doubled(newSize, required)
    {
      r := newSize;
      while r < required
        invariant r > 0 && Doubled(r, required) == Doubled(newSize, required)
        decreases required - r
      {
        r := r * 2;
      }
    }

    // The reallocation, to a block of newSize elements
    method Reallocate(newSize: nat)
      requires Valid() && elements != null && size <= newSize && IsPower(newSize)
      modifies `size, `copied, elements
      ensures Keeps() && elements == old(elements) && fresh(elements.block)
      ensures size == newSize && copied == old(copied) + old(size)
    {
      hide IsPower;
      var oldBlock := elements.block;
      var newBlock := new T[newSize];
      forall i | 0 <= i < size { newBlock[i] := oldBlock[i]; }
      copied := copied + size;
      size := newSize;
      elements.block := newBlock;
    }

    // _cairo_array_grow_by, with unsigned addition. `cell` and `block` say whether the
    // allocator can serve the pointer cell and the new block.
    method GrowBy(additional: nat, cell: bool, block: bool) returns (status: Status)
      requires Valid() && additional < UINT_SIZE
      modifies `size, `elements, `copied, elements
      ensures Keeps() && (elements != null && elements != old(elements) ==> fresh(elements))
      ensures elements != null ==>
                fresh(elements.block) || (old(elements) != null && elements.block == old(elements.block))
      ensures status != Undefined
      ensures numElements + additional <= old(size) ==> elements == old(elements)
      ensures status == NoMemory <==>
                || numElements + additional > INT_MAX
                || (numElements + additional > old(size) && ((old(elements) == null && !cell) || !block))
      ensures size == if status == Success then Capacity(old(size), numElements + additional) else old(size)
      ensures copied == if size == old(size) then old(copied) else old(copied) + old(size)
    {
      hide IsPower;
      var oldSize := size;
      var requiredSize := (numElements + additional) % UINT_SIZE;
      if requiredSize > INT_MAX || requiredSize < numElements { return NoMemory; }
      if requiredSize <= oldSize { return Success; }
      var newSize := if oldSize == 0 then 1 else oldSize * 2;
      newSize := DoubleUntil(newSize, requiredSize);
      if elements == null {
        if !cell { return NoMemory; }
        elements := new Storage();
      }
      if !block { return NoMemory; }
      CapacityIsLeastPower(oldSize, requiredSize, newSize);
      Reallocate(newSize);
      return Success;
    }

    // _cairo_array_allocate: room for more elements, whose values are not yet set. For none,
    // on an array without storage, it takes the address of an element nevertheless.
    method Allocate(count: nat, cell: bool, block: bool) returns (status: Status, at: nat)
      requires Valid() && count < UINT_SIZE
      modifies `size, `elements, `copied, `numElements, elements
      ensures Keeps() && at == old(numElements)
      ensures elements != null && elements != old(elements) ==> fresh(elements)
      ensures elements != null ==>
                fresh(elements.block) || (old(elements) != null && elements.block == old(elements.block))
      ensures status == NoMemory <==>
                || old(numElements) + count > INT_MAX
                || (old(numElements) + count > old(size) && ((old(elements) == null && !cell) || !block))
      ensures numElements == if status == Success then old(numElements) + count else old(numElements)
      ensures status == Success ==>
                Ledger(size, numElements, copied) == Charge(old(Ledger(size, numElements, copied)), count)
      ensures status == Undefined <==> count == 0 && old(elements) == null
      ensures status != Success ==> size == old(size) && copied == old(copied)
    {
      at := numElements;
      status := GrowBy(count, cell, block);
      if status != Success { return; }
      if elements == null { return Undefined, at; }
      numElements := numElements + count;
    }

    // _cairo_array_append_multiple
    method AppendMultiple(items: seq<T>, cell: bool, block: bool) returns (status: Status)
      requires Valid() && |items| < UINT_SIZE
      modifies `size, `elements, `copied, `numElements, elements, if elements == null then {} else {elements.block}
      ensures Valid() && snapshots == old(snapshots)
      ensures Contents() == if status == Success then old(Contents()) + items else old(Contents())
      ensures elements != null && elements != old(elements) ==> fresh(elements)
      ensures old(elements) != null ==> elements == old(elements)
      ensures elements != null ==>
                fresh(elements.block) || (old(elements) != null && elements.block == old(elements.block))
      ensures forall s :: s in snapshots ==>
                Shown(s) == if status == Success then Changed(old(Shown(s)), Added(items)) else old(Shown(s))
      ensures status == NoMemory <==>
                || old(numElements) + |items| > INT_MAX
                || (old(numElements) + |items| > old(size) && ((old(elements) == null && !cell) || !block))
      ensures status == Undefined <==> items == [] && old(elements) == null
      ensures status == Success ==>
                Ledger(size, numElements, copied) == Charge(old(Ledger(size, numElements, copied)), |items|)
    {
      hide IsPower, Overwritten, Capacity;
      var at;
      status, at := Allocate(|items|, cell, block);
      ghost var shown := if elements == null then [] else elements.block[..];
      forall s | s in snapshots ensures s.Contents() == old(s.Contents()) == shown[..s.numElements] {}
      assert at <= |shown| && old(Contents()) == shown[..at];
      if status == Success && items != [] {
        Write(elements.block, at, items);
      }
      if status == Success {
        OverwrittenParts(shown, at, items, |shown|);
        forall s | s in snapshots ensures s.Contents() == Overwritten(old(s.Contents()), at, items) {
          OverwrittenParts(shown, at, items, s.numElements);
          OverwrittenParts(shown[..s.numElements], at, items, s.numElements);
        }
      }
    }

    // memcpy
    static method Write(dest: array<T>, at: nat, items: seq<T>)
      requires at + |items| <= dest.Length
      modifies dest
      ensures dest[..] == Overwritten(old(dest[..]), at, items)
    {
      forall i | 0 <= i < |items| { dest[at + i] := items[i]; }
    }

    // _cairo_array_append
    method Append(item: T, cell: bool, block: bool) returns (status: Status)
      requires Valid()
      modifies `size, `elements, `copied, `numElements, elements, if elements == null then {} else {elements.block}
      ensures Valid() && snapshots == old(snapshots)
      ensures Contents() == if status == Success then old(Contents()) + [item] else old(Contents())
      ensures elements != null && elements != old(elements) ==> fresh(elements)
      ensures old(elements) != null ==> elements == old(elements)
      ensures elements != null ==>
                fresh(elements.block) || (old(elements) != null && elements.block == old(elements.block))
      ensures forall s :: s in snapshots ==>
                Shown(s) == if status == Success then Changed(old(Shown(s)), Added([item])) else old(Shown(s))
      ensures status == NoMemory <==>
                || old(numElements) + 1 > INT_MAX
                || (old(numElements) + 1 > old(size) && ((old(elements) == null && !cell) || !block))
      ensures status != Undefined
      ensures status == Success ==>
                Ledger(size, numElements, copied) == Charge(old(Ledger(size, numElements, copied)), 1)
    {
      status := AppendMultiple([item], cell, block);
    }

    // _cairo_array_truncate
    method Truncate(count: nat)
      requires Valid()
      modifies `numElements
      ensures Valid() && Contents() == if count < |old(Contents())| then old(Contents())[..count] else old(Contents())
      ensures snapshots == old(snapshots)
      ensures forall s :: s in snapshots ==> Shown(s) == Changed(old(Shown(s)), Cut(count))
    {
      if count < numElements { numElements := count; }
    }

    // _cairo_array_index
    method Index(index: nat) returns (item: Option<T>)
      requires Valid() && (index == 0 || index < numElements)
      ensures item == if index < |Contents()| then Some(Contents()[index]) else None
    {
      if index == 0 && numElements == 0 { return None; }
      return Some(elements.block[index]);
    }
  }

  // A snapshot is a view, not a copy: after truncating below its count, the next append
  // never fails, and writes through to it.
  method TruncateAndAppend<T(0)>(list: CairoArray<T>, s: CairoArray<T>, count: nat, x: T, cell: bool, block: bool)
    requires list.Valid() && s in list.snapshots && count < s.numElements && count <= list.numElements
    modifies list`size, list`elements, list`copied, list`numElements, list.elements
    modifies if list.elements == null then {} else {list.elements.block}
    ensures list.Valid() && s in list.snapshots && s.numElements == old(s.numElements)
    ensures s.Contents() == old(s.Contents())[count := x]
    ensures list.Contents() == old(list.Contents())[..count] + [x]
  {
    hide IsPower, Doubled, Charge;
    list.Truncate(count);
    var status := list.Append(x, cell, block);
    assert status == Success;
  }
}
