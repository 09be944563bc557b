// User data attached by key, with destructors (cairo-array.c, lines 352-492).
module UserData {
  // Pointers are numbers, NULL is 0.
  type Pointer = nat
  const NULL: Pointer := 0

  // cairo_user_data_slot_t
  datatype Slot = Slot(key: Pointer, data: Pointer, destroy: Pointer)

  const EMPTY: Slot := Slot(NULL, NULL, NULL)

  datatype Status = Success | NoMemory

  // A call of a destroy function.
  datatype Call = Call(destroy: Pointer, data: Pointer)

  // A slot is taken exactly when it has data, and no key has two.
  predicate Tidy(slots: seq<Slot>) {
    && (forall i :: 0 <= i < |slots| ==> (slots[i].key == NULL <==> slots[i].data == NULL))
    && (forall i, j :: 0 <= i < j < |slots| && slots[i].key != NULL ==> slots[i].key != slots[j].key)
  }

  // ---- The reference: a finite map ----

  datatype Entry = Entry(data: Pointer, destroy: Pointer)

  function AsMap(slots: seq<Slot>): map<Pointer, Entry> {
    if slots == [] then map[] else
      var last := slots[|slots| - 1];
      var m := AsMap(slots[..|slots| - 1]);
      if last.key == NULL then m else m[last.key := Entry(last.data, last.destroy)]
  }

  function SetInMap(m: map<Pointer, Entry>, key: Pointer, data: Pointer, destroy: Pointer): map<Pointer, Entry> {
    if data == NULL then m - {key} else m[key := Entry(data, destroy)]
  }

  function GetInMap(m: map<Pointer, Entry>, key: Pointer): Pointer {
    if key in m then m[key].data else NULL
  }

  predicate HasKey(slots: seq<Slot>, key: Pointer) {
    exists i :: 0 <= i < |slots| && slots[i].key == key
  }

  lemma {:induction false} MapHoldsSlots(slots: seq<Slot>)
    requires Tidy(slots)
    ensures forall k :: k in AsMap(slots) <==> k != NULL && HasKey(slots, k)
    ensures forall i :: 0 <= i < |slots| && slots[i].key != NULL ==>
              slots[i].key in AsMap(slots) && AsMap(slots)[slots[i].key] == Entry(slots[i].data, slots[i].destroy)
  {
    if slots != [] {
      var n := |slots| - 1;
      var before := slots[..n];
      hide HasKey;
      MapHoldsSlots(before);
      assert forall i :: 0 <= i < n ==> slots[i] == before[i];
      forall k ensures HasKey(slots, k) <==> HasKey(before, k) || slots[n].key == k { LastKey(slots, k); }
    }
  }

  lemma LastKey(slots: seq<Slot>, k: Pointer)
    requires slots != []
    ensures HasKey(slots, k) <==> HasKey(slots[..|slots| - 1], k) || slots[|slots| - 1].key == k
  {
    var before := slots[..|slots| - 1];
    if HasKey(before, k) {
      var i :| 0 <= i < |before| && before[i].key == k;
      assert slots[i].key == k;
    }
  }

  // ---- The slot a set goes to ----

  predicate IsFree(s: Slot) {
    s.data == NULL
  }

  // The slot of the key; or else, for data to attach, the last free one; or none.
  ghost predicate GoesTo(slots: seq<Slot>, key: Pointer, data: Pointer, at: int) {
    if HasKey(slots, key) then 0 <= at < |slots| && slots[at].key == key
    else if data != NULL && (exists i :: 0 <= i < |slots| && IsFree(slots[i])) then
      0 <= at < |slots| && IsFree(slots[at]) && forall i :: at < i < |slots| ==> !IsFree(slots[i])
    else at == -1
  }

  function NewSlot(key: Pointer, data: Pointer, destroy: Pointer): Slot {
    if data != NULL then Slot(key, data, destroy) else EMPTY
  }

  function Stored(slots: seq<Slot>, at: int, slot: Slot): seq<Slot>
    requires -1 <= at < |slots|
  {
    if at == -1 then slots + [slot] else slots[at := slot]
  }

  // Every other key keeps its slot.
  lemma OthersKept(slots: seq<Slot>, key: Pointer, data: Pointer, destroy: Pointer, at: int, k: Pointer)
    requires Tidy(slots) && key != NULL && GoesTo(slots, key, data, at) && k != NULL && k != key
    ensures -1 <= at < |slots|
    ensures HasKey(Stored(slots, at, NewSlot(key, data, destroy)), k) <==> HasKey(slots, k)
    ensures forall i :: 0 <= i < |slots| && slots[i].key == k ==> i != at
  {
    StoredTidy(slots, key, data, destroy, at);
    var r := Stored(slots, at, NewSlot(key, data, destroy));
    if HasKey(slots, k) {
      var i :| 0 <= i < |slots| && slots[i].key == k;
      assert r[i] == slots[i];
    }
    if HasKey(r, k) {
      var i :| 0 <= i < |r| && r[i].key == k;
      assert slots[i].key == k;
    }
  }

  // A set on the slots is a set on the map, and keeps one slot per key.
  lemma StoringRefinesMap(slots: seq<Slot>, key: Pointer, data: Pointer, destroy: Pointer, at: int)
    requires Tidy(slots) && key != NULL && GoesTo(slots, key, data, at)
    ensures -1 <= at < |slots|
    ensures var r := Stored(slots, at, NewSlot(key, data, destroy));
      Tidy(r) && AsMap(r) == SetInMap(AsMap(slots), key, data, destroy)
  {
    hide AsMap, Tidy, HasKey, GoesTo;
    StoredTidy(slots, key, data, destroy, at);
    var r := Stored(slots, at, NewSlot(key, data, destroy));
    MapHoldsSlots(slots);
    MapHoldsSlots(r);
    var m, n := AsMap(r), SetInMap(AsMap(slots), key, data, destroy);
    KeyAfterStore(slots, key, data, destroy, at);
    forall k | k != NULL && k != key
      ensures k in m <==> k in n
      ensures k in m ==> m[k] == n[k]
    {
      OthersKept(slots, key, data, destroy, at, k);
      if HasKey(slots, k) {
        var i := SlotOf(slots, k);
        assert r[i] == slots[i];
      }
    }
  }

  lemma SlotOf(slots: seq<Slot>, k: Pointer) returns (i: nat)
    requires HasKey(slots, k)
    ensures i < |slots| && slots[i].key == k
  {
    i :| 0 <= i < |slots| && slots[i].key == k;
  }

  lemma KeyAfterStore(slots: seq<Slot>, key: Pointer, data: Pointer, destroy: Pointer, at: int)
    requires Tidy(slots) && key != NULL && GoesTo(slots, key, data, at)
    ensures -1 <= at < |slots|
    ensures var r := Stored(slots, at, NewSlot(key, data, destroy));
      && (HasKey(r, key) <==> data != NULL)
      && (data != NULL ==> r[if at == -1 then |slots| else at] == Slot(key, data, destroy))
  {
    StoredTidy(slots, key, data, destroy, at);
    var r := Stored(slots, at, NewSlot(key, data, destroy));
    assert data != NULL ==> r[if at == -1 then |slots| else at].key == key;
  }

  lemma StoredTidy(slots: seq<Slot>, key: Pointer, data: Pointer, destroy: Pointer, at: int)
    requires Tidy(slots) && key != NULL && GoesTo(slots, key, data, at)
    ensures -1 <= at < |slots| && Tidy(Stored(slots, at, NewSlot(key, data, destroy)))
    ensures at >= 0 ==> slots[at].key in {NULL, key}
    ensures at == -1 <==> NoPlace(slots, key, data)
    ensures !HasKey(slots, key) && at >= 0 ==> Due(slots[at]) == []
  {
  }

  // ---- What is attached and not yet destroyed ----

  // The call that destroys what a slot holds, if it has to be.
  function Due(s: Slot): seq<Call> {
    if s.data != NULL && s.destroy != NULL then [Call(s.destroy, s.data)] else []
  }

  function Owed(s: Slot): multiset<Call> {
    multiset(Due(s))
  }

  function AllOwed(slots: seq<Slot>): multiset<Call> {
    if slots == [] then multiset{} else AllOwed(slots[..|slots| - 1]) + Owed(slots[|slots| - 1])
  }

  lemma {:induction false} OwedAfterUpdate(slots: seq<Slot>, at: nat, slot: Slot)
    requires at < |slots|
    ensures AllOwed(slots[at := slot]) + Owed(slots[at]) == AllOwed(slots) + Owed(slot)
  {
    hide Owed;
    var n := |slots| - 1;
    var r := slots[at := slot];
    LastOwed(r);
    if at < n {
      OwedAfterUpdate(slots[..n], at, slot);
      assert r[..n] == slots[..n][at := slot];
      assert AllOwed(r) + Owed(slots[at]) == AllOwed(r[..n]) + Owed(slots[at]) + Owed(slots[n]);
    } else {
      assert r[..n] == slots[..n];
    }
  }

  lemma LastOwed(slots: seq<Slot>)
    requires slots != []
    ensures AllOwed(slots) == AllOwed(slots[..|slots| - 1]) + Owed(slots[|slots| - 1])
  {
  }

  lemma OwedAfterAppend(slots: seq<Slot>, slot: Slot)
    ensures AllOwed(slots + [slot]) == AllOwed(slots) + Owed(slot)
  {
    assert (slots + [slot])[..|slots|] == slots;
  }

  // ---- Whole runs ----

  datatype SetCall = SetCall(key: Pointer, data: Pointer, destroy: Pointer)

  // The map after a run of sets.
  function RunMap(calls: seq<SetCall>): map<Pointer, Entry> {
    if calls == [] then map[] else
      var c := calls[|calls| - 1];
      SetInMap(RunMap(calls[..|calls| - 1]), c.key, c.data, c.destroy)
  }

  // The data of the last set of the key, NULL before any.
  function LastSet(calls: seq<SetCall>, key: Pointer): Pointer {
    if calls == [] then NULL
    else if calls[|calls| - 1].key == key then calls[|calls| - 1].data
    else LastSet(calls[..|calls| - 1], key)
  }

  lemma {:induction false} GetReturnsLastSet(calls: seq<SetCall>, key: Pointer)
    ensures GetInMap(RunMap(calls), key) == LastSet(calls, key)
    ensures forall k :: k in RunMap(calls) ==> RunMap(calls)[k].data != NULL
  {
    if calls != [] {
      GetReturnsLastSet(calls[..|calls| - 1], key);
    }
  }

  // What a set attaches to be destroyed: the destroy function is to be called on the data.
  function AttachedBy(c: SetCall): multiset<Call> {
    if c.data != NULL && c.destroy != NULL then multiset{Call(c.destroy, c.data)} else multiset{}
  }

  function Attached(calls: seq<SetCall>): multiset<Call> {
    if calls == [] then multiset{} else Attached(calls[..|calls| - 1]) + AttachedBy(calls[|calls| - 1])
  }

  lemma RunAppend(calls: seq<SetCall>, c: SetCall)
    ensures RunMap(calls + [c]) == SetInMap(RunMap(calls), c.key, c.data, c.destroy)
    ensures Attached(calls + [c]) == Attached(calls) + Owed(NewSlot(c.key, c.data, c.destroy))
  {
    assert (calls + [c])[..|calls|] == calls;
  }

  // Neither a slot of the key nor a free one that data could go to.
  ghost predicate NoPlace(slots: seq<Slot>, key: Pointer, data: Pointer) {
    !HasKey(slots, key) && (data == NULL || forall i :: 0 <= i < |slots| ==> !IsFree(slots[i]))
  }

  // ---- cairo_user_data_array_t ----

  class UserDataArray {
    var slots: seq<Slot>
    var destroyed: seq<Call>          // the destroy functions called so far, in order
    ghost var calls: seq<SetCall>     // the sets that succeeded

    // One entry per key, as the sets left it; what was attached to be destroyed has
    // been destroyed once or is still in its slot.
    ghost predicate Valid()
      reads this
    {
      && Tidy(slots)
      && AsMap(slots) == RunMap(calls)
      && Attached(calls) == multiset(destroyed) + AllOwed(slots)
    }

    // _cairo_user_data_array_init
    constructor ()
      ensures Valid() && slots == [] && destroyed == [] && calls == []
    {
      slots, destroyed, calls := [], [], [];
    }

    // _cairo_user_data_array_get_data
    method GetData(key: Pointer) returns (data: Pointer)
      requires Valid() && key != NULL
      ensures data == LastSet(calls, key)
    {
      MapHoldsSlots(slots);
      GetReturnsLastSet(calls, key);
      for i := 0 to |slots|
        invariant forall j :: 0 <= j < i ==> slots[j].key != key
      {
        if slots[i].key == key { return slots[i].data; }
      }
      return NULL;
    }

    // The search loop of _cairo_user_data_array_set_data
    method FindSlot(key: Pointer, data: Pointer) returns (at: int)
      requires key != NULL && Tidy(slots)
      modifies `destroyed
      ensures GoesTo(slots, key, data, at)
      ensures destroyed == old(destroyed) + if HasKey(slots, key) then Due(slots[at]) else []
    {
      at := -1;
      for i := 0 to |slots|
        invariant -1 <= at < i && destroyed == old(destroyed)
        invariant forall j :: 0 <= j < i ==> slots[j].key != key
        invariant at >= 0 ==> data != NULL && IsFree(slots[at])
        invariant data != NULL ==> forall j :: at < j < i ==> !IsFree(slots[j])
      {
        if slots[i].key == key {
          if slots[i].destroy != NULL && slots[i].data != NULL {
            destroyed := destroyed + [Call(slots[i].destroy, slots[i].data)];
          }
          return i;
        }
        if data != NULL && slots[i].data == NULL { at := i; }
      }
    }

    // _cairo_user_data_array_set_data; `memory` says whether the array can be extended.
    method SetData(key: Pointer, data: Pointer, destroy: Pointer, memory: bool) returns (status: Status)
      requires Valid() && key != NULL
      modifies this
      ensures Valid()
      ensures status == NoMemory <==> !memory && NoPlace(old(slots), key, data)
      ensures status == NoMemory ==> calls == old(calls) && slots == old(slots) && destroyed == old(destroyed)
      ensures status == Success ==> calls == old(calls) + [SetCall(key, data, destroy)]
      ensures status == Success ==> |slots| == |old(slots)| + if NoPlace(old(slots), key, data) then 1 else 0
    {
      hide Tidy, AsMap, RunMap, Attached, AllOwed, Due, NoPlace, HasKey, SetInMap;
      var newSlot := if data != NULL then Slot(key, data, destroy) else EMPTY;
      var at := FindSlot(key, data);
      StoringRefinesMap(slots, key, data, destroy, at);
      StoredTidy(slots, key, data, destroy, at);
      if at == -1 && !memory { return NoMemory; }
      if at != -1 {
        OwedAfterUpdate(slots, at, newSlot);
        Rebalanced(multiset(old(destroyed)), AllOwed(slots), Owed(slots[at]), AllOwed(slots[at := newSlot]),
            Owed(newSlot));
        assert destroyed == old(destroyed) + Due(slots[at]);
        slots := slots[at := newSlot];
      } else {
        OwedAfterAppend(slots, newSlot);
        slots := slots + [newSlot];
      }
      RunAppend(calls, SetCall(key, data, destroy));
      calls := calls + [SetCall(key, data, destroy)];
      return Success;
    }

    // _cairo_user_data_array_fini: when it is over, everything ever attached with a
    // destroy function has been destroyed exactly once.
    method Fini()
      requires Valid()
      modifies this
      ensures calls == old(calls) && multiset(destroyed) == Attached(calls) && slots == []
    {
      hide Tidy, AsMap, RunMap, Attached, AllOwed;
      NothingOwed();
      for i := 0 to |slots|
        invariant slots == old(slots) && calls == old(calls)
        invariant multiset(destroyed) == multiset(old(destroyed)) + AllOwed(slots[..i])
      {
        assert slots[..i + 1] == slots[..i] + [slots[i]];
        OwedAfterAppend(slots[..i], slots[i]);
        if slots[i].data != NULL && slots[i].destroy != NULL {
          destroyed := destroyed + [Call(slots[i].destroy, slots[i].data)];
        }
      }
      assert slots[..|slots|] == slots;
      slots := [];
    }
  }

  // What leaves a slot moves from the owed to the destroyed.
  lemma Rebalanced<T>(gone: multiset<T>, owed: multiset<T>, leaving: multiset<T>, left: multiset<T>,
                      coming: multiset<T>)
    requires left + leaving == owed + coming
    ensures (gone + owed) + coming == (gone + leaving) + left
  {
    assert (gone + owed) + coming == gone + (owed + coming);
    assert (gone + leaving) + left == gone + (left + leaving);
  }

  lemma NothingOwed()
    ensures AllOwed([]) == multiset{}
  {
  }
}
