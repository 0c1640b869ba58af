/** The mark-and-sweep collector: `mark`, `markAll`, `sweep` and `gc`. */
module Collector {
  import opened Objects
  import opened Reachability
  import opened Registry
  import opened Machine

  /** Every child of the marked object `x` is marked or still waiting in `work`. */
  ghost predicate Covered(h: Heap, work: seq<Ref>, x: Ref) {
    forall c :: c in Children(h, x) ==> (c in h && h[c].marked) || c in work
  }

  lemma MarkOneShrinksUnmarked(h: Heap, x: Ref)
    requires x in h && !h[x].marked
    ensures UnmarkedSet(h[x := h[x].(marked := true)]) == UnmarkedSet(h) - {x}
    ensures |UnmarkedSet(h[x := h[x].(marked := true)])| < |UnmarkedSet(h)|
  {
    assert UnmarkedSet(h[x := h[x].(marked := true)]) == UnmarkedSet(h) - {x};
  }

  /** The children a freshly marked object adds to the worklist: `tail`
      below `head`, so that `head` is visited first, as in the recursive C `mark`. */
  function Pending(pl: Payload): seq<Ref> {
    match pl
    case IntVal(_) => []
    case PairVal(hd, tl) => [tl, hd]
  }

  /** The worklist state of `Mark(h, r)`: `cur` is `h` with some marks
      added; every pending entry and every newly marked object lies in `live`
      (the objects reachable from `r`), and a newly marked object's children
      are marked or pending. */
  ghost predicate MarkInv(h: Heap, live: set<Ref>, r: Ref, cur: Heap, work: seq<Ref>) {
    && SameShape(h, cur)
    && r in h
    && (forall i :: 0 <= i < |work| ==> work[i] in live)
    && (forall x :: x in h && h[x].marked ==> cur[x].marked)
    && (forall x :: x in h && cur[x].marked && !h[x].marked ==> x in live && Covered(cur, work, x))
    && (cur[r].marked || r in work)
  }

  /** `live` is a set of allocated objects closed under children. */
  ghost predicate LiveSet(h: Heap, live: set<Ref>) {
    && live <= h.Keys
    && forall y :: y in live ==> Children(h, y) <= live
  }

  lemma MarkStepSkip(h: Heap, live: set<Ref>, r: Ref, cur: Heap, work: seq<Ref>)
    requires work != [] && MarkInv(h, live, r, cur, work)
    requires LiveSet(h, live)
    requires cur[work[|work| - 1]].marked
    ensures MarkInv(h, live, r, cur, work[..|work| - 1])
  {
    var x := work[|work| - 1];
    var rest := work[..|work| - 1];
    assert forall y :: y in work <==> y == x || y in rest;
  }

  /** After visiting `x`, every newly marked object is still covered. */
  lemma VisitCovered(h: Heap, cur: Heap, work: seq<Ref>)
    requires SameShape(h, cur) && work != []
    requires work[|work| - 1] in h && !cur[work[|work| - 1]].marked
    requires forall y :: y in h && cur[y].marked && !h[y].marked ==> Covered(cur, work, y)
    ensures var x := work[|work| - 1];
      var cur' := cur[x := cur[x].(marked := true)];
      var work' := work[..|work| - 1] + Pending(cur[x].payload);
      forall y :: y in h && cur'[y].marked && !h[y].marked ==> Covered(cur', work', y)
  {
    var x := work[|work| - 1];
    var rest := work[..|work| - 1];
    var cur' := cur[x := cur[x].(marked := true)];
    var work' := rest + Pending(cur[x].payload);
    assert forall y :: y in work <==> y == x || y in rest;
    assert forall c :: c in Children(cur', x) ==> c in work';
    forall y | y in h && cur'[y].marked && !h[y].marked
      ensures Covered(cur', work', y)
    {
      if y != x {
        assert Covered(cur, work, y);
        assert Children(cur', y) == Children(cur, y);
      }
    }
  }

  lemma MarkStepVisit(h: Heap, live: set<Ref>, r: Ref, cur: Heap, work: seq<Ref>)
    requires work != [] && MarkInv(h, live, r, cur, work)
    requires LiveSet(h, live)
    requires !cur[work[|work| - 1]].marked
    ensures var x := work[|work| - 1];
      MarkInv(h, live, r, cur[x := cur[x].(marked := true)],
              work[..|work| - 1] + Pending(cur[x].payload))
  {
    var x := work[|work| - 1];
    var rest := work[..|work| - 1];
    var work' := rest + Pending(cur[x].payload);
    assert x in live;
    assert Children(h, x) <= live;
    assert forall i :: 0 <= i < |work'| ==> work'[i] in live by {
      forall i | 0 <= i < |work'|
        ensures work'[i] in live
      {
        if i >= |rest| {
          assert work'[i] in Children(h, x);
        } else {
          assert work'[i] == work[i];
        }
      }
    }
    VisitCovered(h, cur, work);
    assert cur[x := cur[x].(marked := true)][r].marked || r in work' by {
      if r != x {
        assert r in work ==> r in rest;
      }
    }
  }

  lemma MarkDone(h: Heap, r: Ref, h': Heap)
    requires HeapClosed(h)
    requires MarkInv(h, ReachableFrom(h, [r]), r, h', [])
    ensures forall x :: x in h && h'[x].marked && !h[x].marked ==>
      Reachable(h, [r], x) && ChildrenMarked(h', x)
    ensures MarkedClosed(h) ==> MarkedClosed(h')
    ensures MarkedClosed(h) ==> forall x :: x in h ==>
      (h'[x].marked <==> h[x].marked || Reachable(h, [r], x))
  {
    forall x | x in h && h'[x].marked && !h[x].marked
      ensures ChildrenMarked(h', x)
    {
      assert Covered(h', [], x);
    }
    if MarkedClosed(h) {
      forall x | x in h' && h'[x].marked
        ensures ChildrenMarked(h', x)
      {
        if h[x].marked {
          assert ChildrenMarked(h, x);
          assert Children(h', x) == Children(h, x);
        }
      }
      MarkedHoldsReachable(h, h', [r]);
    }
  }

  /** When the marked objects of `h'` are closed and include the roots,
      every object reachable in `h` is marked in `h'`. */
  lemma MarkedHoldsReachable(h: Heap, h': Heap, roots: seq<Ref>)
    requires SameShape(h, h') && MarkedClosed(h')
    requires forall y :: y in roots ==> y in h' && h'[y].marked
    ensures forall x :: x in h && Reachable(h, roots, x) ==> h'[x].marked
  {
    forall y | y in MarkedSet(h')
      ensures Children(h', y) <= MarkedSet(h')
    {
      assert ChildrenMarked(h', y);
    }
    forall x | x in h && Reachable(h, roots, x)
      ensures h'[x].marked
    {
      ReachSameShape(h, h', roots, x);
      ClosedSetHoldsReachable(h', roots, MarkedSet(h'), x);
    }
  }

  /** Marks `r` and everything reachable from it through unmarked objects.
      The recursion of the C `mark` becomes an explicit worklist; a marked
      object is never entered again, which is what stops cycles. */
  method Mark(h: Heap, r: Ref) returns (h': Heap)
    requires HeapClosed(h) && r in h
    ensures SameShape(h, h')
    ensures h[r].marked ==> h' == h
    ensures h'[r].marked
    ensures forall x :: x in h && h[x].marked ==> h'[x].marked
    ensures forall x :: x in h && h'[x].marked && !h[x].marked ==>
      Reachable(h, [r], x) && ChildrenMarked(h', x)
    ensures MarkedClosed(h) ==> MarkedClosed(h')
    ensures MarkedClosed(h) ==> forall x :: x in h ==>
      (h'[x].marked <==> h[x].marked || Reachable(h, [r], x))
  {
    // The guard of the C `mark`: an object already marked is not entered.
    if h[r].marked {
      if MarkedClosed(h) {
        MarkedHoldsReachable(h, h, [r]);
      }
      return h;
    }
    ghost var live := ReachableFrom(h, [r]);
    ReachableFromClosed(h, [r]);
    h' := h;
    var work := [r];
    while work != []
      invariant MarkInv(h, live, r, h', work)
      decreases |UnmarkedSet(h')|, |work|
    {
      var x := work[|work| - 1];
      if h'[x].marked {
        MarkStepSkip(h, live, r, h', work);
        work := work[..|work| - 1];
      } else {
        MarkStepVisit(h, live, r, h', work);
        MarkOneShrinksUnmarked(h', x);
        work := work[..|work| - 1] + Pending(h'[x].payload);
        h' := h'[x := h'[x].(marked := true)];
      }
    }
    MarkDone(h, r, h');
  }

  /** The state of `MarkAll` after marking from the first `i` roots: every
      newly marked object is reachable from the stack and has its children
      marked, and the first `i` roots are marked. */
  ghost predicate MarkAllInv(vm: VM, i: nat, h: Heap) {
    && Valid(vm)
    && i <= |vm.stack|
    && SameShape(vm.heap, h)
    && (forall x :: x in vm.heap && vm.heap[x].marked ==> h[x].marked)
    && (forall x :: x in vm.heap && h[x].marked && !vm.heap[x].marked ==>
          x in ReachableFrom(vm.heap, vm.stack) && ChildrenMarked(h, x))
    && (forall j :: 0 <= j < i ==> h[vm.stack[j]].marked)
  }

  /** What one call of `Mark` from root `i` adds to the invariant. */
  lemma MarkAllStep(vm: VM, i: nat, h: Heap, h2: Heap)
    requires i < |vm.stack| && MarkAllInv(vm, i, h)
    requires SameShape(h, h2) && h2[vm.stack[i]].marked
    requires forall x :: x in h && h[x].marked ==> h2[x].marked
    requires forall x :: x in h && h2[x].marked && !h[x].marked ==>
      Reachable(h, [vm.stack[i]], x) && ChildrenMarked(h2, x)
    ensures MarkAllInv(vm, i + 1, h2)
  {
    forall j | 0 <= j < i + 1
      ensures h2[vm.stack[j]].marked
    {
      if j < i {
        assert h[vm.stack[j]].marked;
      }
    }
    forall x | x in vm.heap && h2[x].marked && !vm.heap[x].marked
      ensures x in ReachableFrom(vm.heap, vm.stack) && ChildrenMarked(h2, x)
    {
      if h[x].marked {
        assert ChildrenMarked(h, x);
        assert Children(h2, x) == Children(h, x);
      } else {
        ReachSameShape(h, vm.heap, [vm.stack[i]], x);
        ReachWiderRoots(vm.heap, [vm.stack[i]], vm.stack, x);
      }
    }
  }

  lemma MarkAllDone(vm: VM, h: Heap)
    requires MarkAllInv(vm, |vm.stack|, h)
    requires MarkedClosed(vm.heap)
    ensures MarkedClosed(h)
    ensures forall x :: x in vm.heap ==>
      (h[x].marked <==> vm.heap[x].marked || Reachable(vm.heap, vm.stack, x))
  {
    forall x | x in h && h[x].marked
      ensures ChildrenMarked(h, x)
    {
      if vm.heap[x].marked {
        assert ChildrenMarked(vm.heap, x);
        assert Children(h, x) == Children(vm.heap, x);
      }
    }
    forall y | y in MarkedSet(h)
      ensures Children(h, y) <= MarkedSet(h)
    {
      assert ChildrenMarked(h, y);
    }
    forall y | y in vm.stack
      ensures y in MarkedSet(h)
    {
      var j :| 0 <= j < |vm.stack| && vm.stack[j] == y;
      assert h[vm.stack[j]].marked;
    }
    forall x | x in vm.heap && Reachable(vm.heap, vm.stack, x)
      ensures h[x].marked
    {
      ReachSameShape(vm.heap, h, vm.stack, x);
      ClosedSetHoldsReachable(h, vm.stack, MarkedSet(h), x);
    }
  }

  /** Marks every object reachable from the stack. */
  method MarkAll(vm: VM) returns (vm': VM)
    requires Valid(vm)
    ensures vm'.registry == vm.registry && vm'.stack == vm.stack
    ensures SameShape(vm.heap, vm'.heap) && Valid(vm')
    ensures forall x :: x in vm.heap && vm.heap[x].marked ==> vm'.heap[x].marked
    ensures forall x :: x in vm.heap && vm'.heap[x].marked && !vm.heap[x].marked ==>
      Reachable(vm.heap, vm.stack, x)
    ensures MarkedClosed(vm.heap) ==> MarkedClosed(vm'.heap)
    ensures MarkedClosed(vm.heap) ==> forall x :: x in vm.heap ==>
      (vm'.heap[x].marked <==> vm.heap[x].marked || Reachable(vm.heap, vm.stack, x))
  {
    var h := vm.heap;
    var i := 0;
    while i < |vm.stack|
      invariant MarkAllInv(vm, i, h)
      decreases |vm.stack| - i
    {
      SameShapeKeepsClosed(vm.heap, h);
      var h2 := Mark(h, vm.stack[i]);
      MarkAllStep(vm, i, h, h2);
      h := h2;
      i := i + 1;
    }
    SameShapeKeepsClosed(vm.heap, h);
    if MarkedClosed(vm.heap) {
      MarkAllDone(vm, h);
    }
    vm' := vm.(heap := h);
  }

  /** The state of the sweep after the first `i` registry entries: `kept`
      lists the marked ones, already unmarked in `h`, the unmarked ones are
      gone from `h`, and the rest of the registry is untouched. */
  ghost predicate SweepInv(h0: Heap, reg: seq<Ref>, i: nat, kept: seq<Ref>, h: Heap) {
    && i <= |reg|
    && kept == Filter(reg[..i], MarkedSet(h0))
    && (forall x :: x in h <==> x in kept || x in reg[i..])
    && (forall x :: x in kept ==> x in h0 && h[x] == h0[x].(marked := false))
    && (forall x :: x in reg[i..] ==> x in h0 && h[x] == h0[x])
  }

  /** Facts about the entry at position `i` that both sweep steps use. */
  lemma SweepPosition(reg: seq<Ref>, i: nat)
    requires Distinct(reg) && i < |reg|
    ensures reg[..i + 1] == reg[..i] + [reg[i]]
    ensures reg[..i + 1][..i] == reg[..i]
    ensures reg[i] !in reg[..i] && reg[i] !in reg[i + 1..]
    ensures forall y :: y in reg[i..] <==> y == reg[i] || y in reg[i + 1..]
  {
    assert reg[i..] == [reg[i]] + reg[i + 1..];
  }

  /** Unlinking an unmarked entry. */
  lemma SweepDrop(h0: Heap, reg: seq<Ref>, i: nat, kept: seq<Ref>, h: Heap)
    requires Distinct(reg) && i < |reg|
    requires SweepInv(h0, reg, i, kept, h)
    requires !h0[reg[i]].marked
    ensures SweepInv(h0, reg, i + 1, kept, h - {reg[i]})
  {
    SweepPosition(reg, i);
    assert reg[i] !in kept;
  }

  /** Keeping a marked entry and clearing its mark. */
  lemma SweepKeep(h0: Heap, reg: seq<Ref>, i: nat, kept: seq<Ref>, h: Heap)
    requires Distinct(reg) && i < |reg|
    requires SweepInv(h0, reg, i, kept, h)
    requires h0[reg[i]].marked
    ensures SweepInv(h0, reg, i + 1, kept + [reg[i]], h[reg[i] := h0[reg[i]].(marked := false)])
  {
    SweepPosition(reg, i);
    assert reg[i] !in kept;
  }

  /** Walks the registry once, unlinking and freeing every unmarked object
      and clearing the mark of every survivor. */
  method Sweep(vm: VM) returns (vm': VM)
    requires Registered(vm)
    ensures vm'.stack == vm.stack
    ensures vm'.registry == Filter(vm.registry, MarkedSet(vm.heap))
    ensures forall x :: x in vm'.heap <==> x in vm.heap && vm.heap[x].marked
    ensures forall x :: x in vm'.heap ==> vm'.heap[x] == vm.heap[x].(marked := false)
    ensures Registered(vm') && AllUnmarked(vm'.heap)
  {
    var reg := vm.registry;
    var h := vm.heap;
    var kept: seq<Ref> := [];
    var i := 0;
    assert reg[i..] == reg;
    while i < |reg|
      invariant SweepInv(vm.heap, reg, i, kept, h)
      decreases |reg| - i
    {
      var x := reg[i];
      assert x in reg[i..];
      if !h[x].marked {
        SweepDrop(vm.heap, reg, i, kept, h);
        h := h - {x};
      } else {
        SweepKeep(vm.heap, reg, i, kept, h);
        h := h[x := h[x].(marked := false)];
        kept := kept + [x];
      }
      i := i + 1;
    }
    assert reg[..i] == reg;
    assert reg[i..] == [];
    vm' := vm.(heap := h, registry := kept);
  }

  /** The objects reachable from the stack. */
  ghost function Live(vm: VM): set<Ref> {
    set x | x in vm.heap && Reachable(vm.heap, vm.stack, x)
  }

  /** The objects no root reaches. */
  ghost function Garbage(vm: VM): set<Ref> {
    set x | x in vm.heap && !Reachable(vm.heap, vm.stack, x)
  }

  /** Keeping exactly the live objects, unchanged, leaves no dangling reference. */
  lemma LiveHeapClosed(vm: VM, vm': VM)
    requires Valid(vm) && vm'.stack == vm.stack
    requires forall x :: x in vm'.heap <==> x in Live(vm)
    requires forall x :: x in vm'.heap ==> vm'.heap[x].payload == vm.heap[x].payload
    ensures Closed(vm')
  {
    forall i | 0 <= i < |vm'.stack|
      ensures vm'.stack[i] in vm'.heap
    {
      RootReachable(vm.heap, vm.stack, i);
    }
    forall x | x in vm'.heap
      ensures Children(vm'.heap, x) <= vm'.heap.Keys
    {
      assert Children(vm'.heap, x) == Children(vm.heap, x);
      forall c | c in Children(vm.heap, x)
        ensures c in vm'.heap
      {
        ReachStep(vm.heap, vm.stack, x, c);
      }
    }
  }

  /** A registry holding exactly the live objects is shorter by the garbage count. */
  lemma LiveRegistryLength(vm: VM, reg: seq<Ref>)
    requires Registered(vm) && Distinct(reg)
    requires forall x :: x in reg <==> x in Live(vm)
    ensures |reg| == |vm.registry| - |Garbage(vm)|
  {
    DistinctCardinality(vm.registry);
    DistinctCardinality(reg);
    assert Elements(vm.registry) == Live(vm) + Garbage(vm);
    assert Elements(reg) == Live(vm);
    assert Live(vm) !! Garbage(vm);
  }

  /** A full collection: mark from the stack, then sweep the registry. */
  method Gc(vm: VM) returns (vm': VM)
    requires Valid(vm) && AllUnmarked(vm.heap)
    ensures vm'.stack == vm.stack
    ensures Valid(vm') && AllUnmarked(vm'.heap)
    ensures forall x :: x in vm'.heap <==> x in vm.heap && Reachable(vm.heap, vm.stack, x)
    ensures forall x :: x in vm'.heap ==> vm'.heap[x] == vm.heap[x]
    ensures vm'.registry == Filter(vm.registry, Live(vm))
    ensures |vm'.registry| == |vm.registry| - |Garbage(vm)|
  {
    var marked := MarkAll(vm);
    assert MarkedSet(marked.heap) == Live(vm);
    vm' := Sweep(marked);
    LiveHeapClosed(vm, vm');
    LiveRegistryLength(vm, vm'.registry);
  }
}
