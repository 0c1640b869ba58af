# A verified model of a toy mark-and-sweep garbage collector

This project models `main.c` of a tiny tracing garbage collector. The collector
sits under a minimal VM whose operand stack is the root set. Heap objects are
either integers (`OBJ_INT`) or pairs (`OBJ_PAIR`) with `head` and `tail`
references. Every object carries a `marked` flag and is threaded onto an
all-objects list (`firstObject` / `next`). A collection (`gc`) marks everything
reachable from the stack (`markAll`, which calls the recursive `mark`). It then
sweeps the list (`sweep`), freeing unmarked objects and clearing the marks of
the survivors.

The model is an arena:

- `Objects`: `Ref` stands for an object address. `Object(marked, payload)`
  holds an `IntVal` or a `PairVal(head, tail)`. A `Heap` is a
  `map<Ref, Object>`. `Children` gives the edges the collector follows.
- `Reachability`: paths through `head`/`tail`, the `Reachable` relation, and
  lemmas about it. These cover closed sets, marks (which change no edge), and
  allocation (which adds one node and no edge into it).
- `Registry`: the all-objects list as a `seq<Ref>`, most recent first. It also
  holds the fresh-address choice (`FreshRef`) and `Filter`, the reference
  definition of "the entries kept, in their original order".
- `Results`: the `StackOverflow` / `StackUnderflow` results of the stack
  guards. An error result carries no VM, so a rejected operation leaves the
  caller's VM as it was.
- `Machine`: the `VM`, its invariant `Valid`, and the mutators `NewVM`,
  `NewObject`, `Push`, `Pop`, `PushInt` and `PushPair`.
- `Collector`: `Mark` (a worklist instead of recursion), `MarkAll`, `Sweep`
  and `Gc`.

`Valid(vm)` has two parts. `Registered` says the registry lists every
allocated object exactly once and the stack fits in `STACK_MAX` (256) slots;
the C data structures guarantee this by construction. `Closed` says every
stack entry, and every `head`/`tail` of an allocated pair, is itself
allocated, so there is no dangling reference. Outside a collection every mark
is clear (`AllUnmarked`).

Where the model departs from the code:

- `push` and `pop` guard the stack with `assert` calls whose conditions are
  inverted and which take a second, message argument (main.c:44,
  main.c:49). The model uses the guards the messages describe:
  `stackSize < STACK_MAX` for a push and `stackSize > 0` for a pop. A failed
  guard is an error result, not an abort.
- `gc` calls `markALL`, but the function is named `markAll` (main.c:127). The
  model calls `MarkAll`.
- `newObject` sets only the type and the mark, and its caller fills in the
  fields. The model gives the new object a placeholder payload of the right
  type: `IntVal(0)`, or a pair that points to itself, which keeps the heap
  closed. `PushInt` and `PushPair` then overwrite it. As in the source,
  `PushPair` allocates the pair before it pops `tail` and then `head`.
- The recursive `mark` is a loop over an explicit worklist. Its measure is the
  number of unmarked objects, then the worklist length. The children are
  pushed so that `head` is visited before `tail`, as in the recursion. The
  guard "already marked: return" is kept both for the argument and for every
  object taken from the worklist.
- `malloc` becomes `FreshRef`, which returns one past the largest registered
  address. Any address not in use would do; the proofs only use the fact that
  the result is not in use. `free` becomes removal from the map and the
  registry.

## Model

| member | source | states |
|---|---|---|
| Registry.FreshRef | main.c:54 | the address chosen for a new object is larger than every registered address, so no live object already uses it |
| Registry.Filter | main.c:103-115 | the kept list holds exactly the entries of the registry that satisfy the keep test, in registry order, and repeats none when the registry repeats none |
| Registry.FilterConcat | main.c:103-115 | filtering a concatenation is the concatenation of the filtered parts, so the unlink pass keeps survivors in their original relative order |
| Machine.NewVM | main.c:36-41 | a new VM has an empty object list and an empty stack, satisfies the VM invariant and has no marks |
| Machine.NewObject | main.c:53-62 | allocation picks an address not in use and adds one unmarked object of the requested type at the head of the registry; every existing object and the stack are unchanged, and the invariants still hold |
| Machine.SetPayload | main.c:66 | filling in an object's fields changes only that object, and keeps the heap closed when the new fields refer to allocated objects |
| Machine.Push | main.c:43-46 | a push succeeds exactly when fewer than 256 entries are on the stack and otherwise reports StackOverflow; it appends the reference on top, touches nothing else, and keeps the VM valid when the reference is allocated |
| Machine.Pop | main.c:48-51 | a pop succeeds exactly when the stack is non-empty and otherwise reports StackUnderflow; it returns the top entry and leaves the entries below it; the heap and registry are unchanged and the popped reference is allocated |
| Machine.PushInt | main.c:64-68 | on success a fresh unmarked integer object holding the value is on top of the stack and at the head of the registry, with everything else unchanged; it fails, reporting StackOverflow, exactly when the stack is full |
| Machine.PushPair | main.c:70-77 | on success the top entry becomes the new pair's tail and the one below its head; the two are replaced on the stack by the fresh pair, which heads the registry; it fails, reporting StackUnderflow, exactly when fewer than two entries are on the stack |
| Machine.PushThenPop | main.c:43-51 | popping right after pushing returns the pushed reference and the VM as it was before the push |
| Machine.PopThenPush | main.c:43-51 | pushing back what was just popped restores the VM |
| Machine.PushIntReach | main.c:64-68 | after pushInt an object is reachable from the stack exactly when it is the new integer or was reachable before |
| Machine.PushPairReach | main.c:70-77 | after pushPair an object is reachable exactly when it is the new pair or was reachable before, so the two popped objects stay reachable through the pair |
| Machine.PairOnTopReach | main.c:70-77 | replacing the top two stack entries by a fresh pair that points to them changes the objects reachable from the stack by exactly that pair |
| Machine.PushPairOrder | main.c:64-77 | pushing u, then v, then calling pushPair leaves one new stack entry: a pair whose head holds u and whose tail holds v; the registry grows by three |
| Collector.Mark | main.c:80-90 | marking terminates on cyclic graphs and changes no edge; on an already marked object it changes nothing; it never clears a mark; every newly marked object is reachable from the argument and has marked children; when the marked objects were closed under children, the marks afterwards are exactly the old ones plus everything reachable from the argument |
| Collector.MarkAll | main.c:93-97 | marking from every stack entry changes no edge and clears no mark, and marks only objects reachable from the stack; from an all-unmarked (or closed) marking it leaves marked exactly the old marks plus the objects reachable from the stack |
| Collector.Sweep | main.c:100-116 | the new registry is the old one restricted to marked objects in their original order; exactly the marked objects survive, each with its mark cleared and its type, value and children unchanged; the registry still lists each survivor once |
| Collector.Gc | main.c:126-129 | on a valid heap with no marks, a collection keeps exactly the objects reachable from the stack, unchanged, in registry order; it frees every unreachable one, so the registry shrinks by the unreachable count; the stack is unchanged and the VM is again valid and unmarked |

## Left out

- Memory management as such: `malloc` is modelled as picking one past the largest registered address, and `free` as deleting a map entry. Addresses are reused only in that pattern: once a sweep frees the highest address, the next allocation gets it back, so a reference kept across `Gc` can alias a new object, as it can with `malloc`. Other reuse patterns of a real allocator and the union layout are not modelled.
- Allocation failure: the source does not check `malloc`'s result, so the model allocates without failure.
- Call-stack depth of the recursive `mark`: the model uses a worklist, and its termination is proved instead.
- Integer values are 32-bit (`Int32`). The collector performs no arithmetic on them, so overflow does not arise.
- Collector.Gc: requires that no mark is set on entry. Every mutator and every completed collection leaves the marks clear, so this holds whenever the VM is at rest. Stale marks from an interrupted collection are not modelled.
- The unused `stdio.h` include. There is no interpreter or driver in the source to model.
