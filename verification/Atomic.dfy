// The atomic operations built on a mutex, as steps that any number of threads
// interleave (cairo-atomic.c, lines 39-74, and cairo-atomic-private.h, lines 95-100).
module Atomic {
  // Cells are positions of the memory; threads are positions of the thread list.
  datatype Op =
    | Inc(x: nat)
    | DecAndTest(x: nat)
    | CmpXchg(x: nat, oldv: int, newv: int)

  // Where a thread is: between operations; waiting for the mutex; holding it, before
  // the read; between read and write; after the write, with the result to return.
  datatype Phase =
    | Idle
    | Waiting(op: Op)
    | Entered(op: Op)
    | Loaded(op: Op, value: int)
    | Stored(op: Op, result: int)

  datatype Mutex = Free | HeldBy(thread: nat)

  // An operation that took effect, and what it returns (1 for TRUE).
  datatype Entry = Entry(thread: nat, op: Op, result: int)

  // `log` records the operations in the order of their writes.
  datatype System = System(memory: seq<int>, mutex: Mutex, threads: seq<Phase>, log: seq<Entry>)

  // ---- What one operation does to the value it reads ----

  function NewValue(op: Op, v: int): int {
    match op
    case Inc(_) => v + 1
    case DecAndTest(_) => v - 1
    case CmpXchg(_, oldv, newv) => if v == oldv then newv else v
  }

  function Result(op: Op, v: int): int {
    match op
    case Inc(_) => 0
    case DecAndTest(_) => if v - 1 == 0 then 1 else 0
    case CmpXchg(_, _, _) => v
  }

  // The functions as the thread that holds the mutex runs them
  class Cell {
    var value: int

    // _cairo_atomic_int_inc
    method Increment(ghost x: nat)
      modifies this
      ensures value == NewValue(Inc(x), old(value)) == old(value) + 1
    {
      value := value + 1;
    }

    // _cairo_atomic_int_dec_and_test
    method DecrementAndTest(ghost x: nat) returns (ret: bool)
      modifies this
      ensures value == NewValue(DecAndTest(x), old(value)) == old(value) - 1
      ensures ret <==> old(value) == 1
      ensures Result(DecAndTest(x), old(value)) == if ret then 1 else 0
    {
      value := value - 1;
      ret := value == 0;
    }

    // _cairo_atomic_int_cmpxchg
    method CompareAndExchange(oldv: int, newv: int, ghost x: nat) returns (ret: int)
      modifies this
      ensures old(value) == oldv ==> value == newv
      ensures old(value) != oldv ==> value == old(value)
      ensures ret == old(value)
      ensures value == NewValue(CmpXchg(x, oldv, newv), old(value))
      ensures ret == Result(CmpXchg(x, oldv, newv), old(value))
    {
      ret := value;
      if ret == oldv { value := newv; }
    }
  }

  // ---- Steps ----

  datatype Step =
    | Begin(t: nat, op: Op)
    | Lock(t: nat)
    | Load(t: nat)
    | Store(t: nat)
    | Unlock(t: nat)

  predicate Enabled(s: System, step: Step) {
    && step.t < |s.threads|
    && match step
       case Begin(t, op) => s.threads[t].Idle? && op.x < |s.memory|
       case Lock(t) => s.threads[t].Waiting? && s.mutex.Free?
       case Load(t) => s.threads[t].Entered? && s.threads[t].op.x < |s.memory|
       case Store(t) => s.threads[t].Loaded? && s.threads[t].op.x < |s.memory|
       case Unlock(t) => s.threads[t].Stored?
  }

  function Apply(s: System, step: Step): System
    requires Enabled(s, step)
  {
    match step
    case Begin(t, op) => s.(threads := s.threads[t := Waiting(op)])
    case Lock(t) => s.(mutex := HeldBy(t), threads := s.threads[t := Entered(s.threads[t].op)])
    case Load(t) =>
      var op := s.threads[t].op;
      s.(threads := s.threads[t := Loaded(op, s.memory[op.x])])
    case Store(t) =>
      var op, v := s.threads[t].op, s.threads[t].value;
      s.(memory := s.memory[op.x := NewValue(op, v)],
         threads := s.threads[t := Stored(op, Result(op, v))],
         log := s.log + [Entry(t, op, Result(op, v))])
    case Unlock(t) => s.(mutex := Free, threads := s.threads[t := Idle])
  }

  function Init(memory: seq<int>, threads: nat): System {
    System(memory, Free, seq(threads, _ => Idle), [])
  }

  // The states of an interleaving, one step after the other.
  ghost predicate Run(memory: seq<int>, threads: nat, run: seq<System>) {
    && run != [] && run[0] == Init(memory, threads)
    && forall i :: 0 < i < |run| ==> Follows(run[i - 1], run[i])
  }

  ghost predicate Follows(s: System, r: System) {
    exists step :: Enabled(s, step) && r == Apply(s, step)
  }

  // ---- One thread at a time ----

  predicate Inside(p: Phase) {
    p.Entered? || p.Loaded? || p.Stored?
  }

  // The memory after a sequence of operations done one at a time.
  function After(memory: seq<int>, log: seq<Entry>): (m: seq<int>)
    ensures |m| == |memory|
  {
    if log == [] then memory else
      var m := After(memory, log[..|log| - 1]);
      var op := log[|log| - 1].op;
      if op.x < |m| then m[op.x := NewValue(op, m[op.x])] else m
  }

  // Every logged result is the one of doing the operations one at a time.
  ghost predicate Sequential(memory: seq<int>, log: seq<Entry>) {
    forall i :: 0 <= i < |log| ==>
      log[i].op.x < |memory| && log[i].result == Result(log[i].op, After(memory, log[..i])[log[i].op.x])
  }

  ghost predicate Inv(memory: seq<int>, s: System) {
    && |s.memory| == |memory|
    && (forall t :: 0 <= t < |s.threads| && !s.threads[t].Idle? ==> s.threads[t].op.x < |memory|)
    && (forall t :: 0 <= t < |s.threads| ==> (Inside(s.threads[t]) <==> s.mutex == HeldBy(t)))
    && (s.mutex.HeldBy? ==> s.mutex.thread < |s.threads|)
    && (forall t :: 0 <= t < |s.threads| && s.threads[t].Loaded? ==> s.threads[t].value == s.memory[s.threads[t].op.x])
    && s.memory == After(memory, s.log)
    && Sequential(memory, s.log)
  }

  lemma SequentialGrows(memory: seq<int>, log: seq<Entry>, e: Entry)
    requires Sequential(memory, log) && e.op.x < |memory|
    requires e.result == Result(e.op, After(memory, log)[e.op.x])
    ensures Sequential(memory, log + [e])
    ensures After(memory, log + [e]) == After(memory, log)[e.op.x := NewValue(e.op, After(memory, log)[e.op.x])]
  {
    hide NewValue, Result;
    var r := log + [e];
    assert r[..|log|] == log;
    forall i | 0 <= i < |r|
      ensures r[i].op.x < |memory| && r[i].result == Result(r[i].op, After(memory, r[..i])[r[i].op.x])
    {
      assert r[..i] == log[..i];
      if i == |log| { assert log[..i] == log; }
    }
  }

  lemma StoreKeepsInv(memory: seq<int>, s: System, t: nat)
    requires Inv(memory, s) && Enabled(s, Store(t))
    ensures Inv(memory, Apply(s, Store(t)))
  {
    hide NewValue, Result, Sequential, After;
    var op, v := s.threads[t].op, s.threads[t].value;
    SequentialGrows(memory, s.log, Entry(t, op, Result(op, v)));
  }

  lemma StepKeepsInv(memory: seq<int>, s: System, step: Step)
    requires Inv(memory, s) && Enabled(s, step)
    ensures Inv(memory, Apply(s, step))
  {
    hide NewValue, Result, Sequential;
    if step.Store? { StoreKeepsInv(memory, s, step.t); }
  }

  // In every interleaving the mutex keeps the operations apart: the memory and all
  // results are those of doing the operations one at a time, in the order of the log.
  lemma {:induction false} Linearizable(memory: seq<int>, threads: nat, run: seq<System>, i: nat)
    requires Run(memory, threads, run) && i < |run|
    ensures Inv(memory, run[i])
  {
    hide Inv, Apply, Enabled;
    if i == 0 {
      InitInv(memory, threads);
    } else {
      Linearizable(memory, threads, run, i - 1);
      assert Follows(run[i - 1], run[i]);
      var step :| Enabled(run[i - 1], step) && run[i] == Apply(run[i - 1], step);
      StepKeepsInv(memory, run[i - 1], step);
    }
  }

  lemma InitInv(memory: seq<int>, threads: nat)
    ensures Inv(memory, Init(memory, threads))
  {
  }

  // No interleaving gets stuck in the middle of an operation.
  lemma NeverStuck(memory: seq<int>, s: System, t: nat) returns (step: Step)
    requires Inv(memory, s) && t < |s.threads| && !s.threads[t].Idle?
    ensures Enabled(s, step) && !step.Begin?
  {
    var u := if s.mutex.HeldBy? then s.mutex.thread else t;
    step := match s.threads[u]
      case Waiting(_) => Lock(u)
      case Entered(_) => Load(u)
      case Loaded(_, _) => Store(u)
      case _ => Unlock(u);
  }

  // ---- Counters ----

  predicate Counts(log: seq<Entry>, x: nat) {
    forall i :: 0 <= i < |log| && log[i].op.x == x ==> !log[i].op.CmpXchg?
  }

  function Incs(log: seq<Entry>, x: nat): nat {
    if log == [] then 0 else Incs(log[..|log| - 1], x) + if log[|log| - 1].op == Inc(x) then 1 else 0
  }

  function Decs(log: seq<Entry>, x: nat): nat {
    if log == [] then 0 else Decs(log[..|log| - 1], x) + if log[|log| - 1].op == DecAndTest(x) then 1 else 0
  }

  lemma {:induction false} CounterOfLog(memory: seq<int>, log: seq<Entry>, x: nat)
    requires x < |memory| && Counts(log, x)
    ensures After(memory, log)[x] == memory[x] + Incs(log, x) - Decs(log, x)
  {
    if log != [] {
      CounterOfLog(memory, log[..|log| - 1], x);
    }
  }

  // In every interleaving a counter is its initial value plus increments minus decrements.
  lemma CounterIsConserved(memory: seq<int>, threads: nat, run: seq<System>, i: nat, x: nat)
    requires Run(memory, threads, run) && i < |run| && x < |memory| && Counts(run[i].log, x)
    ensures |run[i].memory| == |memory|
    ensures run[i].memory[x] == memory[x] + Incs(run[i].log, x) - Decs(run[i].log, x)
  {
    Linearizable(memory, threads, run, i);
    CounterOfLog(memory, run[i].log, x);
  }

  // ---- Reference counts ----

  function CountAt(memory: seq<int>, log: seq<Entry>, i: nat, x: nat): int
    requires i <= |log| && x < |memory|
  {
    After(memory, log[..i])[x]
  }

  // The cell is only operated on while it is positive, as by holders of a reference.
  ghost predicate Referenced(memory: seq<int>, log: seq<Entry>, x: nat)
    requires x < |memory|
  {
    forall i :: 0 <= i < |log| && log[i].op.x == x ==> CountAt(memory, log, i, x) > 0
  }

  lemma {:induction false} PositiveUntilLast(memory: seq<int>, log: seq<Entry>, x: nat, n: nat)
    requires x < |memory| && memory[x] > 0 && Counts(log, x) && Referenced(memory, log, x) && n <= |log|
    ensures CountAt(memory, log, n, x) >= 0
    ensures n > 0 && log[n - 1].op.x != x ==> CountAt(memory, log, n, x) == CountAt(memory, log, n - 1, x)
    ensures n > 0 && log[n - 1].op.x == x ==>
      (CountAt(memory, log, n, x) == 0 <==> log[n - 1].op == DecAndTest(x) && CountAt(memory, log, n - 1, x) == 1)
  {
    if n > 0 {
      PositiveUntilLast(memory, log, x, n - 1);
      assert log[..n][..n - 1] == log[..n - 1];
    }
  }

  // Once zero, the count stays zero, and the cell is not touched again.
  lemma {:induction false} ZeroIsFinal(memory: seq<int>, log: seq<Entry>, x: nat, i: nat, j: nat)
    requires x < |memory| && memory[x] > 0 && Counts(log, x) && Referenced(memory, log, x)
    requires i <= j <= |log| && CountAt(memory, log, i, x) == 0
    ensures CountAt(memory, log, j, x) == 0
    ensures forall m :: i <= m < j ==> log[m].op.x != x
    decreases j
  {
    if i < j {
      ZeroIsFinal(memory, log, x, i, j - 1);
      PositiveUntilLast(memory, log, x, j);
    }
  }

  lemma {:induction false} ZeroHasCause(memory: seq<int>, log: seq<Entry>, x: nat, n: nat) returns (i: nat)
    requires x < |memory| && memory[x] > 0 && Counts(log, x) && Referenced(memory, log, x)
    requires n <= |log| && CountAt(memory, log, n, x) == 0
    ensures i < n && log[i].op == DecAndTest(x) && CountAt(memory, log, i, x) == 1
  {
    PositiveUntilLast(memory, log, x, n);
    assert log[..0] == [];
    if n > 0 && log[n - 1].op.x == x {
      i := n - 1;
    } else {
      i := ZeroHasCause(memory, log, x, n - 1);
    }
  }

  predicate AnsweredTrue(e: Entry, x: nat) {
    e.op == DecAndTest(x) && e.result == 1
  }

  // Entry i is the one that answered TRUE, and the last operation on the cell.
  ghost predicate OnlyTrueIsLast(log: seq<Entry>, x: nat, i: nat) {
    && i < |log|
    && (forall j :: 0 <= j < |log| ==> (AnsweredTrue(log[j], x) <==> j == i))
    && (forall j :: i < j < |log| ==> log[j].op.x != x)
  }

  lemma TrueMakesZero(memory: seq<int>, log: seq<Entry>, x: nat, j: nat)
    requires x < |memory| && memory[x] > 0 && Counts(log, x) && Referenced(memory, log, x) && Sequential(memory, log)
    requires j < |log| && log[j].op == DecAndTest(x)
    ensures AnsweredTrue(log[j], x) <==> CountAt(memory, log, j, x) == 1
    ensures AnsweredTrue(log[j], x) ==> CountAt(memory, log, j + 1, x) == 0 == CountAt(memory, log, |log|, x)
    ensures AnsweredTrue(log[j], x) ==> forall m :: j < m < |log| ==> log[m].op.x != x
    ensures log[j].result in {0, 1}
  {
    hide After;
    PositiveUntilLast(memory, log, x, j + 1);
    if AnsweredTrue(log[j], x) { ZeroIsFinal(memory, log, x, j + 1, |log|); }
  }

  // When the references balance, exactly one decrement answers TRUE, and it is the
  // last operation on the count.
  lemma BalancedAnswersTrueOnce(memory: seq<int>, log: seq<Entry>, x: nat) returns (i: nat)
    requires x < |memory| && memory[x] > 0 && Counts(log, x) && Referenced(memory, log, x) && Sequential(memory, log)
    requires memory[x] + Incs(log, x) == Decs(log, x)
    ensures OnlyTrueIsLast(log, x, i)
  {
    hide After, Sequential, Referenced, AnsweredTrue, Incs, Decs;
    CounterOfLog(memory, log, x);
    assert log[..|log|] == log;
    i := ZeroHasCause(memory, log, x, |log|);
    TrueMakesZero(memory, log, x, i);
    forall j | 0 <= j < |log| && AnsweredTrue(log[j], x) ensures j == i {
      TrueIsDec(log[j], x);
      TrueMakesZero(memory, log, x, j);
    }
  }

  lemma TrueIsDec(e: Entry, x: nat)
    requires AnsweredTrue(e, x)
    ensures e.op == DecAndTest(x)
  {
  }

  // While they do not balance, no decrement answers TRUE.
  lemma UnbalancedAnswersFalse(memory: seq<int>, log: seq<Entry>, x: nat, j: nat)
    requires x < |memory| && memory[x] > 0 && Counts(log, x) && Referenced(memory, log, x) && Sequential(memory, log)
    requires memory[x] + Incs(log, x) != Decs(log, x)
    requires j < |log| && log[j].op == DecAndTest(x)
    ensures log[j].result == 0
  {
    hide After, Sequential, Referenced, Incs, Decs;
    CounterOfLog(memory, log, x);
    assert log[..|log|] == log;
    TrueMakesZero(memory, log, x, j);
  }

  // In every interleaving: TRUE is answered once the references balance, once, by the
  // last operation on the count.
  lemma LastReferenceAnswersTrue(memory: seq<int>, threads: nat, run: seq<System>, n: nat, x: nat)
    requires Run(memory, threads, run) && n < |run| && x < |memory| && memory[x] > 0
    requires Counts(run[n].log, x) && Referenced(memory, run[n].log, x)
    ensures memory[x] + Incs(run[n].log, x) == Decs(run[n].log, x) <==> exists i :: OnlyTrueIsLast(run[n].log, x, i)
    ensures memory[x] + Incs(run[n].log, x) != Decs(run[n].log, x) ==>
              forall j :: 0 <= j < |run[n].log| && run[n].log[j].op == DecAndTest(x) ==> run[n].log[j].result == 0
  {
    hide Run, Referenced, Sequential, After, Incs, Decs, Counts;
    var log := run[n].log;
    Linearizable(memory, threads, run, n);
    assert Sequential(memory, log);
    if memory[x] + Incs(log, x) == Decs(log, x) {
      var i := BalancedAnswersTrueOnce(memory, log, x);
    } else {
      forall j | 0 <= j < |log| && log[j].op == DecAndTest(x) ensures log[j].result == 0 {
        UnbalancedAnswersFalse(memory, log, x, j);
      }
      forall i: nat ensures !OnlyTrueIsLast(log, x, i) {
        if i < |log| { assert !AnsweredTrue(log[i], x); }
      }
    }
  }

  // ---- _cairo_status_set_error ----

  const STATUS_SUCCESS: int := 0

  // The cell is only changed by setting errors.
  predicate SetsErrors(log: seq<Entry>, x: nat) {
    forall i :: 0 <= i < |log| && log[i].op.x == x ==> log[i].op.CmpXchg? && log[i].op.oldv == STATUS_SUCCESS
  }

  // The first error set, or SUCCESS.
  function FirstError(log: seq<Entry>, x: nat): int {
    if log == [] then STATUS_SUCCESS
    else if FirstError(log[..|log| - 1], x) != STATUS_SUCCESS then FirstError(log[..|log| - 1], x)
    else if log[|log| - 1].op.x == x && log[|log| - 1].op.CmpXchg? then log[|log| - 1].op.newv
    else STATUS_SUCCESS
  }

  lemma {:induction false} StatusOfLog(memory: seq<int>, log: seq<Entry>, x: nat)
    requires x < |memory| && memory[x] == STATUS_SUCCESS && SetsErrors(log, x)
    ensures After(memory, log)[x] == FirstError(log, x)
  {
    if log != [] {
      StatusOfLog(memory, log[..|log| - 1], x);
    }
  }

  lemma {:induction false} LogGrows(memory: seq<int>, threads: nat, run: seq<System>, i: nat, j: nat)
    requires Run(memory, threads, run) && i <= j < |run|
    ensures run[i].log <= run[j].log
    decreases j
  {
    hide Enabled;
    if i < j {
      LogGrows(memory, threads, run, i, j - 1);
      assert Follows(run[j - 1], run[j]);
    }
  }

  lemma {:induction false} FirstErrorStays(log: seq<Entry>, more: seq<Entry>, x: nat)
    requires log <= more && FirstError(log, x) != STATUS_SUCCESS
    ensures FirstError(more, x) == FirstError(log, x)
    decreases |more|
  {
    if |log| < |more| {
      assert log <= more[..|more| - 1];
      FirstErrorStays(log, more[..|more| - 1], x);
    } else {
      assert log == more;
    }
  }

  // However threads race to set errors, the status is the first one set, and once it
  // is an error it never changes.
  lemma FirstErrorIsKept(memory: seq<int>, threads: nat, run: seq<System>, i: nat, j: nat, x: nat)
    requires Run(memory, threads, run) && i <= j < |run|
    requires x < |memory| && memory[x] == STATUS_SUCCESS && SetsErrors(run[j].log, x)
    ensures |run[i].memory| == |memory| == |run[j].memory|
    ensures run[j].memory[x] == FirstError(run[j].log, x)
    ensures run[i].memory[x] != STATUS_SUCCESS ==> run[j].memory[x] == run[i].memory[x]
  {
    Linearizable(memory, threads, run, i);
    Linearizable(memory, threads, run, j);
    LogGrows(memory, threads, run, i, j);
    StatusOfLog(memory, run[i].log, x);
    StatusOfLog(memory, run[j].log, x);
    if run[i].memory[x] != STATUS_SUCCESS { FirstErrorStays(run[i].log, run[j].log, x); }
  }
}
