/** Reachability through `head`/`tail`, defined by paths in the object graph. */
module Reachability {
  import opened Objects

  /** `p` is a non-empty walk that follows a child reference at every step. */
  ghost predicate IsPath(h: Heap, p: seq<Ref>) {
    && |p| > 0
    && forall i :: 0 <= i < |p| - 1 ==> p[i + 1] in Children(h, p[i])
  }

  /** `x` can be reached from one of `roots` by following children. */
  ghost predicate Reachable(h: Heap, roots: seq<Ref>, x: Ref) {
    exists p :: IsPath(h, p) && p[0] in roots && p[|p| - 1] == x
  }

  lemma RootReachable(h: Heap, roots: seq<Ref>, i: nat)
    requires i < |roots|
    ensures Reachable(h, roots, roots[i])
  {
    assert IsPath(h, [roots[i]]);
  }

  lemma ReachStep(h: Heap, roots: seq<Ref>, x: Ref, c: Ref)
    requires Reachable(h, roots, x) && c in Children(h, x)
    ensures Reachable(h, roots, c)
  {
    var p :| IsPath(h, p) && p[0] in roots && p[|p| - 1] == x;
    var q := p + [c];
    assert forall i :: 0 <= i < |q| - 1 ==> q[i + 1] in Children(h, q[i]) by {
      forall i | 0 <= i < |q| - 1
        ensures q[i + 1] in Children(h, q[i])
      {
        if i < |p| - 1 {
          assert q[i] == p[i] && q[i + 1] == p[i + 1];
        }
      }
    }
    assert IsPath(h, q) && q[0] in roots && q[|q| - 1] == c;
  }

  /** Adding roots never loses a reachable object. */
  lemma ReachWiderRoots(h: Heap, a: seq<Ref>, b: seq<Ref>, x: Ref)
    requires Reachable(h, a, x)
    requires forall y :: y in a ==> y in b
    ensures Reachable(h, b, x)
  {
    var p :| IsPath(h, p) && p[0] in a && p[|p| - 1] == x;
    assert p[0] in b;
  }

  /** Marking does not change what is reachable. */
  lemma ReachSameShape(h1: Heap, h2: Heap, roots: seq<Ref>, x: Ref)
    requires SameShape(h1, h2) && Reachable(h1, roots, x)
    ensures Reachable(h2, roots, x)
  {
    var p :| IsPath(h1, p) && p[0] in roots && p[|p| - 1] == x;
    forall i | 0 <= i < |p| - 1
      ensures p[i + 1] in Children(h2, p[i])
    {
      assert Children(h2, p[i]) == Children(h1, p[i]);
    }
    assert IsPath(h2, p);
  }

  lemma {:induction false} PathStaysIn(h: Heap, p: seq<Ref>, s: set<Ref>)
    requires IsPath(h, p) && p[0] in s
    requires forall y :: y in s ==> Children(h, y) <= s
    ensures p[|p| - 1] in s
    decreases |p|
  {
    if |p| > 1 {
      var q := p[..|p| - 1];
      assert forall i :: 0 <= i < |q| - 1 ==> q[i + 1] in Children(h, q[i]) by {
        forall i | 0 <= i < |q| - 1
          ensures q[i + 1] in Children(h, q[i])
        {
          assert q[i] == p[i] && q[i + 1] == p[i + 1];
        }
      }
      PathStaysIn(h, q, s);
      assert p[|p| - 1] in Children(h, p[|p| - 2]);
    }
  }

  /** A set that holds the roots and is closed under children holds everything reachable. */
  lemma ClosedSetHoldsReachable(h: Heap, roots: seq<Ref>, s: set<Ref>, x: Ref)
    requires forall y :: y in roots ==> y in s
    requires forall y :: y in s ==> Children(h, y) <= s
    requires Reachable(h, roots, x)
    ensures x in s
  {
    var p :| IsPath(h, p) && p[0] in roots && p[|p| - 1] == x;
    PathStaysIn(h, p, s);
  }

  /** The allocated objects reachable from `roots`. */
  ghost function ReachableFrom(h: Heap, roots: seq<Ref>): set<Ref> {
    set x | x in h && Reachable(h, roots, x)
  }

  /** In a closed heap the reachable objects are closed under children and hold the roots. */
  lemma ReachableFromClosed(h: Heap, roots: seq<Ref>)
    requires HeapClosed(h)
    ensures forall y :: y in ReachableFrom(h, roots) ==> Children(h, y) <= ReachableFrom(h, roots)
    ensures forall i :: 0 <= i < |roots| && roots[i] in h ==> roots[i] in ReachableFrom(h, roots)
  {
    forall y | y in ReachableFrom(h, roots)
      ensures Children(h, y) <= ReachableFrom(h, roots)
    {
      forall c | c in Children(h, y)
        ensures c in ReachableFrom(h, roots)
      {
        ReachStep(h, roots, y, c);
      }
    }
    forall i | 0 <= i < |roots| && roots[i] in h
      ensures roots[i] in ReachableFrom(h, roots)
    {
      RootReachable(h, roots, i);
    }
  }

  /** A path that starts at a root reaches its end from that single root. */
  lemma ReachFromOneRoot(h: Heap, roots: seq<Ref>, x: Ref) returns (y: Ref)
    requires Reachable(h, roots, x)
    ensures y in roots && Reachable(h, [y], x)
  {
    var p :| IsPath(h, p) && p[0] in roots && p[|p| - 1] == x;
    y := p[0];
    assert IsPath(h, p) && p[0] in [y];
  }

  /** Reaching `x` from a child of `r` reaches it from `r`. */
  lemma ReachThroughParent(h: Heap, r: Ref, c: Ref, x: Ref)
    requires c in Children(h, r) && Reachable(h, [c], x)
    ensures Reachable(h, [r], x)
  {
    var p :| IsPath(h, p) && p[0] in [c] && p[|p| - 1] == x;
    var q := [r] + p;
    forall i | 0 <= i < |q| - 1
      ensures q[i + 1] in Children(h, q[i])
    {
      if i > 0 {
        assert q[i] == p[i - 1] && q[i + 1] == p[i];
      }
    }
    assert IsPath(h, q) && q[0] in [r] && q[|q| - 1] == x;
  }

  /** Whatever `r` reaches is `r` itself or reached from one of its children. */
  lemma ReachThroughChild(h: Heap, r: Ref, x: Ref) returns (c: Ref)
    requires Reachable(h, [r], x) && x != r
    ensures c in Children(h, r) && Reachable(h, [c], x)
  {
    var p :| IsPath(h, p) && p[0] in [r] && p[|p| - 1] == x;
    assert |p| > 1;
    c := p[1];
    var q := p[1..];
    forall i | 0 <= i < |q| - 1
      ensures q[i + 1] in Children(h, q[i])
    {
      assert q[i] == p[i + 1] && q[i + 1] == p[i + 2];
    }
    assert IsPath(h, q) && q[0] in [c] && q[|q| - 1] == x;
  }

  /** `h'` is `h` with the one new object `o` added. */
  ghost predicate ExtendsWith(h: Heap, h': Heap, o: Ref) {
    && o !in h
    && h'.Keys == h.Keys + {o}
    && forall x :: x in h ==> h'[x] == h[x]
  }

  /** Allocating an object does not cut any existing path. */
  lemma ReachInExtension(h: Heap, h': Heap, o: Ref, roots: seq<Ref>, x: Ref)
    requires ExtendsWith(h, h', o) && Reachable(h, roots, x)
    ensures Reachable(h', roots, x)
  {
    var p :| IsPath(h, p) && p[0] in roots && p[|p| - 1] == x;
    forall i | 0 <= i < |p| - 1
      ensures p[i + 1] in Children(h', p[i])
    {
      assert p[i + 1] in Children(h, p[i]);
      assert p[i] in h;
      assert Children(h', p[i]) == Children(h, p[i]);
    }
    assert IsPath(h', p);
  }

  lemma {:induction false} PathAvoidsNew(h: Heap, h': Heap, o: Ref, p: seq<Ref>)
    requires ExtendsWith(h, h', o) && HeapClosed(h)
    requires IsPath(h', p) && p[0] in h
    ensures IsPath(h, p) && p[|p| - 1] in h
    decreases |p|
  {
    if |p| > 1 {
      var q := p[1..];
      assert Children(h', p[0]) == Children(h, p[0]) <= h.Keys;
      assert p[1] in Children(h', p[0]);
      assert IsPath(h', q) by {
        forall i | 0 <= i < |q| - 1
          ensures q[i + 1] in Children(h', q[i])
        {
          assert q[i] == p[i + 1] && q[i + 1] == p[i + 2];
        }
      }
      PathAvoidsNew(h, h', o, q);
      forall i | 0 <= i < |p| - 1
        ensures p[i + 1] in Children(h, p[i])
      {
        if i > 0 {
          assert q[i - 1] == p[i] && q[i] == p[i + 1];
        }
      }
      assert p[|p| - 1] == q[|q| - 1];
    }
  }

  /** From objects that already existed, a new object cannot be reached:
      nothing old refers to it. */
  lemma ReachFromOldRoots(h: Heap, h': Heap, o: Ref, roots: seq<Ref>, x: Ref)
    requires ExtendsWith(h, h', o) && HeapClosed(h)
    requires forall y :: y in roots ==> y in h
    requires Reachable(h', roots, x)
    ensures Reachable(h, roots, x)
  {
    var p :| IsPath(h', p) && p[0] in roots && p[|p| - 1] == x;
    PathAvoidsNew(h, h', o, p);
  }

  /** Replacing the top roots `dropped` by one new object `o` whose children
      are exactly those roots changes the reachable objects by `o` alone. */
  lemma ReplaceRootsWithNew(h: Heap, h': Heap, o: Ref, kept: seq<Ref>, dropped: seq<Ref>, x: Ref)
    requires ExtendsWith(h, h', o) && HeapClosed(h)
    requires forall y :: y in kept + dropped ==> y in h
    requires forall y :: y in Children(h', o) <==> y in dropped
    ensures Reachable(h', kept + [o], x) <==> x == o || Reachable(h, kept + dropped, x)
  {
    var roots := kept + dropped;
    var roots' := kept + [o];
    assert forall y :: y in roots <==> y in kept || y in dropped;
    assert forall y :: y in roots' <==> y in kept || y == o;
    if Reachable(h', roots', x) && x != o {
      var y := ReachFromOneRoot(h', roots', x);
      if y == o {
        var c := ReachThroughChild(h', o, x);
        ReachFromOldRoots(h, h', o, [c], x);
        ReachWiderRoots(h, [c], roots, x);
      } else {
        ReachFromOldRoots(h, h', o, [y], x);
        ReachWiderRoots(h, [y], roots, x);
      }
    }
    if x == o {
      RootReachable(h', roots', |kept|);
    } else if Reachable(h, roots, x) {
      var y := ReachFromOneRoot(h, roots, x);
      ReachInExtension(h, h', o, [y], x);
      if y in kept {
        ReachWiderRoots(h', [y], roots', x);
      } else {
        ReachThroughParent(h', o, y, x);
        ReachWiderRoots(h', [o], roots', x);
      }
    }
  }
}
