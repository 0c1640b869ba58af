/** The object graph: heap nodes, their payloads and the arena that holds them.

    A C `Object*` becomes a `Ref` into a `Heap` map. The intrusive `next`
    link is not a field here: the order of the registry sequence in the VM
    plays its part. */
module Objects {

  /** An arena key standing for an object's address. */
  type Ref = nat

  /** The C `int` held by an integer object. */
  newtype Int32 = x: int | -0x8000_0000 <= x < 0x8000_0000

  /** The object tag (`OBJ_INT` / `OBJ_PAIR`). */
  datatype ObjectType = ObjInt | ObjPair

  /** The union part of an object: an integer, or a pair of references. */
  datatype Payload = IntVal(value: Int32) | PairVal(head: Ref, tail: Ref)

  datatype Object = Object(marked: bool, payload: Payload)
  {
    /** The tag the payload carries. */
    function Type(): ObjectType {
      if payload.IntVal? then ObjInt else ObjPair
    }
  }

  type Heap = map<Ref, Object>

  /** The references the collector follows out of `x`: `head` and `tail` of a pair. */
  function Children(h: Heap, x: Ref): set<Ref> {
    if x in h && h[x].payload.PairVal? then {h[x].payload.head, h[x].payload.tail} else {}
  }

  /** No object refers to a freed one: every child is itself in the heap. */
  ghost predicate HeapClosed(h: Heap) {
    forall x {:trigger Children(h, x)} :: x in h ==> Children(h, x) <= h.Keys
  }

  /** `h2` differs from `h1` in mark flags at most. */
  ghost predicate SameShape(h1: Heap, h2: Heap) {
    && h1.Keys == h2.Keys
    && forall x :: x in h1 ==> h2[x].payload == h1[x].payload
  }

  /** The state outside a collection: no object carries a mark. */
  ghost predicate AllUnmarked(h: Heap) {
    forall x :: x in h ==> !h[x].marked
  }

  /** Every child of `x` is a marked object. */
  ghost predicate ChildrenMarked(h: Heap, x: Ref) {
    forall c :: c in Children(h, x) ==> c in h && h[c].marked
  }

  /** The marked objects are closed under `head`/`tail`. */
  ghost predicate MarkedClosed(h: Heap) {
    forall x :: x in h && h[x].marked ==> ChildrenMarked(h, x)
  }

  ghost function MarkedSet(h: Heap): set<Ref> {
    set x | x in h && h[x].marked
  }

  ghost function UnmarkedSet(h: Heap): set<Ref> {
    set x | x in h && !h[x].marked
  }

  lemma SameShapeKeepsClosed(h1: Heap, h2: Heap)
    requires SameShape(h1, h2) && HeapClosed(h1)
    ensures HeapClosed(h2)
  {
    forall x | x in h2
      ensures Children(h2, x) <= h2.Keys
    {
      assert Children(h2, x) == Children(h1, x);
    }
  }
}
