/** The minimal VM: the operand stack (the root set) and the registry of all
    allocated objects, with the mutator operations that allocate and move
    references. */
module Machine {
  import opened Objects
  import opened Reachability
  import opened Registry
  import opened Results

  /** Capacity of the operand stack. */
  const STACK_MAX: nat := 256

  /** `heap` holds the objects, `registry` threads them most-recent-first
      (the `firstObject`/`next` chain) and `stack` lists the roots bottom to top. */
  datatype VM = VM(heap: Heap, registry: seq<Ref>, stack: seq<Ref>)

  /** What the C structures guarantee by construction: the registry chain
      enumerates exactly the allocated objects, each once, and the stack
      fits its fixed array. */
  ghost predicate Registered(vm: VM) {
    && Distinct(vm.registry)
    && (forall x :: x in vm.heap <==> x in vm.registry)
    && |vm.stack| <= STACK_MAX
  }

  /** No dangling reference: every root and every child is allocated. */
  ghost predicate Closed(vm: VM) {
    && (forall i :: 0 <= i < |vm.stack| ==> vm.stack[i] in vm.heap)
    && HeapClosed(vm.heap)
  }

  ghost predicate Valid(vm: VM) {
    Registered(vm) && Closed(vm)
  }

  function NewVM(): (vm: VM)
    ensures vm.registry == [] && vm.stack == []
    ensures Valid(vm) && AllUnmarked(vm.heap)
  {
    VM(map[], [], [])
  }

  /** The fields `newObject` leaves for its caller to fill in. A pair
      starts out referring to itself so that the heap stays closed. */
  function Placeholder(kind: ObjectType, self: Ref): Payload {
    match kind
    case ObjInt => IntVal(0)
    case ObjPair => PairVal(self, self)
  }

  /** Allocates an unmarked object of type `kind` and links it in as the
      registry's new head. */
  function NewObject(vm: VM, kind: ObjectType): (res: (VM, Ref))
    requires Registered(vm)
    ensures res.1 !in vm.heap
    ensures res.0.registry == [res.1] + vm.registry
    ensures res.0.heap == vm.heap[res.1 := Object(false, Placeholder(kind, res.1))]
    ensures res.0.heap[res.1].Type() == kind
    ensures res.0.stack == vm.stack
    ensures Registered(res.0)
    ensures Closed(vm) ==> Closed(res.0)
  {
    var r := FreshRef(vm.registry);
    var vm' := vm.(heap := vm.heap[r := Object(false, Placeholder(kind, r))],
                   registry := [r] + vm.registry);
    assert Closed(vm) ==> HeapClosed(vm'.heap) by {
      if Closed(vm) {
        forall x | x in vm'.heap
          ensures Children(vm'.heap, x) <= vm'.heap.Keys
        {
          if x != r {
            assert Children(vm'.heap, x) == Children(vm.heap, x);
          }
        }
      }
    }
    (vm', r)
  }

  function Push(vm: VM, r: Ref): (res: Result<VM>)
    ensures res.Ok? <==> |vm.stack| < STACK_MAX
    ensures res.Err? ==> res.error == StackOverflow
    ensures res.Ok? ==> res.value == vm.(stack := vm.stack + [r])
    ensures res.Ok? && Valid(vm) && r in vm.heap ==> Valid(res.value)
  {
    if |vm.stack| < STACK_MAX then Ok(vm.(stack := vm.stack + [r]))
    else Err(StackOverflow)
  }

  function Pop(vm: VM): (res: Result<(VM, Ref)>)
    ensures res.Ok? <==> |vm.stack| > 0
    ensures res.Err? ==> res.error == StackUnderflow
    ensures res.Ok? ==> var (vm', r) := res.value;
      && vm'.stack + [r] == vm.stack
      && vm'.heap == vm.heap && vm'.registry == vm.registry
    ensures res.Ok? && Valid(vm) ==> Valid(res.value.0) && res.value.1 in vm.heap
  {
    if |vm.stack| > 0 then
      Ok((vm.(stack := vm.stack[..|vm.stack| - 1]), vm.stack[|vm.stack| - 1]))
    else Err(StackUnderflow)
  }

  /** The references a payload holds. */
  function PayloadRefs(pl: Payload): set<Ref> {
    match pl
    case IntVal(_) => {}
    case PairVal(hd, tl) => {hd, tl}
  }

  /** Fills in the fields of the allocated object `o`. */
  function SetPayload(vm: VM, o: Ref, pl: Payload): (vm': VM)
    requires o in vm.heap
    ensures vm'.heap == vm.heap[o := Object(vm.heap[o].marked, pl)]
    ensures vm'.registry == vm.registry && vm'.stack == vm.stack
    ensures Registered(vm) ==> Registered(vm')
    ensures Closed(vm) && PayloadRefs(pl) <= vm.heap.Keys ==> Closed(vm')
  {
    var vm' := vm.(heap := vm.heap[o := vm.heap[o].(payload := pl)]);
    assert Closed(vm) && PayloadRefs(pl) <= vm.heap.Keys ==> HeapClosed(vm'.heap) by {
      if Closed(vm) && PayloadRefs(pl) <= vm.heap.Keys {
        forall x | x in vm'.heap
          ensures Children(vm'.heap, x) <= vm'.heap.Keys
        {
          if x != o {
            assert Children(vm'.heap, x) == Children(vm.heap, x);
          } else {
            assert Children(vm'.heap, x) == PayloadRefs(pl);
          }
        }
      }
    }
    vm'
  }

  /** Allocates an integer object holding `v` and pushes it. */
  function PushInt(vm: VM, v: Int32): (res: Result<VM>)
    requires Registered(vm)
    ensures res.Ok? <==> |vm.stack| < STACK_MAX
    ensures res.Err? ==> res.error == StackOverflow
    ensures res.Ok? ==> |res.value.stack| == |vm.stack| + 1
    ensures res.Ok? ==>
      var vm' := res.value;
      var o := vm'.stack[|vm.stack|];
      && vm'.stack == vm.stack + [o]
      && o !in vm.heap
      && vm'.registry == [o] + vm.registry
      && vm'.heap == vm.heap[o := Object(false, IntVal(v))]
    ensures res.Ok? && Valid(vm) ==> Valid(res.value)
  {
    var (vm1, o) := NewObject(vm, ObjInt);
    var vm2 := SetPayload(vm1, o, IntVal(v));
    Push(vm2, o)
  }

  /** Allocates a pair, pops its `tail` and then its `head` off the stack,
      and pushes the pair in their place. */
  function PushPair(vm: VM): (res: Result<(VM, Ref)>)
    requires Registered(vm)
    ensures res.Ok? <==> |vm.stack| >= 2
    ensures res.Err? ==> res.error == StackUnderflow
    ensures res.Ok? ==>
      var vm' := res.value.0;
      var p := res.value.1;
      var n := |vm.stack|;
      && p !in vm.heap
      && vm'.stack == vm.stack[..n - 2] + [p]
      && vm'.registry == [p] + vm.registry
      && vm'.heap == vm.heap[p := Object(false, PairVal(vm.stack[n - 2], vm.stack[n - 1]))]
    ensures res.Ok? && Valid(vm) ==> Valid(res.value.0)
  {
    var (vm1, p) := NewObject(vm, ObjPair);
    var (vm2, tl) :- Pop(vm1);
    var (vm3, hd) :- Pop(vm2);
    assert vm2.stack + [tl] == vm.stack && vm3.stack + [hd] == vm2.stack;
    assert vm3.stack == vm.stack[..|vm.stack| - 2];
    var vm4 := SetPayload(vm3, p, PairVal(hd, tl));
    // Two entries were just popped, so this push cannot overflow.
    Ok((Push(vm4, p).value, p))
  }

  /** A push followed by a pop returns the pushed reference and the original VM. */
  lemma PushThenPop(vm: VM, r: Ref)
    requires |vm.stack| < STACK_MAX
    ensures Push(vm, r).Ok?
    ensures Pop(Push(vm, r).value) == Ok((vm, r))
  {
    assert (vm.stack + [r])[..|vm.stack|] == vm.stack;
  }

  /** A pop followed by pushing the popped reference back restores the VM. */
  lemma PopThenPush(vm: VM)
    requires 0 < |vm.stack| <= STACK_MAX
    ensures Pop(vm).Ok?
    ensures Push(Pop(vm).value.0, Pop(vm).value.1) == Ok(vm)
  {
    assert vm.stack[..|vm.stack| - 1] + [vm.stack[|vm.stack| - 1]] == vm.stack;
  }

  /** `pushInt` makes exactly one more object reachable: the new integer. */
  lemma PushIntReach(vm: VM, v: Int32, x: Ref)
    requires Valid(vm) && |vm.stack| < STACK_MAX
    ensures PushInt(vm, v).Ok?
    ensures var vm' := PushInt(vm, v).value;
      var o := vm'.stack[|vm.stack|];
      Reachable(vm'.heap, vm'.stack, x) <==> x == o || Reachable(vm.heap, vm.stack, x)
  {
    var vm' := PushInt(vm, v).value;
    var o := vm'.stack[|vm.stack|];
    assert ExtendsWith(vm.heap, vm'.heap, o);
    assert vm.stack + [] == vm.stack;
    assert Children(vm'.heap, o) == {};
    ReplaceRootsWithNew(vm.heap, vm'.heap, o, vm.stack, [], x);
  }

  /** `pushPair` loses no reachable object: the two popped objects stay
      reachable through the new pair, which is the only object added. */
  lemma PushPairReach(vm: VM, x: Ref)
    requires Valid(vm) && |vm.stack| >= 2
    ensures PushPair(vm).Ok?
    ensures var (vm', p) := PushPair(vm).value;
      Reachable(vm'.heap, vm'.stack, x) <==> x == p || Reachable(vm.heap, vm.stack, x)
  {
    var res := PushPair(vm);
    PairOnTopReach(vm, res.value.0, res.value.1, x);
  }

  /** The reachability fact behind `PushPairReach`, stated on the shape of
      the VM that `pushPair` produces. */
  lemma PairOnTopReach(vm: VM, vm': VM, p: Ref, x: Ref)
    requires Valid(vm) && |vm.stack| >= 2 && p !in vm.heap
    requires vm'.stack == vm.stack[..|vm.stack| - 2] + [p]
    requires vm'.heap == vm.heap[p := Object(false, PairVal(vm.stack[|vm.stack| - 2], vm.stack[|vm.stack| - 1]))]
    ensures Reachable(vm'.heap, vm'.stack, x) <==> x == p || Reachable(vm.heap, vm.stack, x)
  {
    var n := |vm.stack|;
    var kept := vm.stack[..n - 2];
    var dropped := [vm.stack[n - 2], vm.stack[n - 1]];
    assert kept + dropped == vm.stack;
    assert ExtendsWith(vm.heap, vm'.heap, p);
    assert Children(vm'.heap, p) == {vm.stack[n - 2], vm.stack[n - 1]};
    ReplaceRootsWithNew(vm.heap, vm'.heap, p, kept, dropped, x);
  }

  /** Pushing `u`, then `v`, then combining them leaves one new entry on
      the stack: a pair whose head holds `u` and whose tail holds `v`, since
      the first pop is the tail. */
  lemma PushPairOrder(vm: VM, u: Int32, v: Int32)
    requires Registered(vm) && |vm.stack| + 2 <= STACK_MAX
    ensures PushInt(vm, u).Ok? && PushInt(PushInt(vm, u).value, v).Ok?
    ensures var vm2 := PushInt(PushInt(vm, u).value, v).value;
      && PushPair(vm2).Ok?
      && var (vm3, p) := PushPair(vm2).value;
      && vm3.stack == vm.stack + [p]
      && |vm3.registry| == |vm.registry| + 3
      && vm3.heap[p].payload.PairVal?
      && vm3.heap[vm3.heap[p].payload.head].payload == IntVal(u)
      && vm3.heap[vm3.heap[p].payload.tail].payload == IntVal(v)
  {
    var vm1 := PushInt(vm, u).value;
    var a := vm1.stack[|vm.stack|];
    var vm2 := PushInt(vm1, v).value;
    var b := vm2.stack[|vm1.stack|];
    assert vm2.stack == vm.stack + [a, b];
    assert vm2.heap[a].payload == IntVal(u) && vm2.heap[b].payload == IntVal(v);
    var (vm3, p) := PushPair(vm2).value;
    assert vm3.heap[p].payload == PairVal(a, b);
    assert vm3.stack == vm.stack + [p];
  }
}
