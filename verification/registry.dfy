/** The all-objects registry as a sequence of references, most recent first. */
module Registry {
  import opened Objects

  ghost predicate Distinct(s: seq<Ref>) {
    forall i, j :: 0 <= i < j < |s| ==> s[i] != s[j]
  }

  function Elements(s: seq<Ref>): set<Ref> {
    set x | x in s
  }

  /** An address that no registered object occupies: one past the largest. */
  function FreshRef(s: seq<Ref>): (r: Ref)
    ensures forall i :: 0 <= i < |s| ==> s[i] < r
  {
    if s == [] then 0
    else
      var rest := FreshRef(s[1..]);
      if rest <= s[0] then s[0] + 1 else rest
  }

  /** The entries of `s` that lie in `keep`, in their order in `s`. */
  function Filter(s: seq<Ref>, keep: set<Ref>): (r: seq<Ref>)
    ensures forall x :: x in r <==> x in s && x in keep
    ensures |r| <= |s|
    ensures Distinct(s) ==> Distinct(r)
  {
    if s == [] then []
    else
      var last := s[|s| - 1];
      var prefix := Filter(s[..|s| - 1], keep);
      assert forall x :: x in s <==> x in s[..|s| - 1] || x == last;
      assert Distinct(s) ==> last !in s[..|s| - 1];
      prefix + (if last in keep then [last] else [])
  }

  /** A registry without repeats has as many entries as distinct objects. */
  lemma {:induction false} DistinctCardinality(s: seq<Ref>)
    requires Distinct(s)
    ensures |Elements(s)| == |s|
  {
    if s != [] {
      DistinctCardinality(s[1..]);
      assert Elements(s) == {s[0]} + Elements(s[1..]);
      assert s[0] !in Elements(s[1..]);
    }
  }

  /** Filtering commutes with concatenation: each part keeps its own
      entries, in order, and the parts stay in order. */
  lemma {:induction false} FilterConcat(a: seq<Ref>, b: seq<Ref>, keep: set<Ref>)
    ensures Filter(a + b, keep) == Filter(a, keep) + Filter(b, keep)
    decreases |b|
  {
    if b == [] {
      assert a + b == a;
    } else {
      var last := b[|b| - 1];
      var b' := b[..|b| - 1];
      var tail := if last in keep then [last] else [];
      assert (a + b)[..|a + b| - 1] == a + b';
      assert (a + b)[|a + b| - 1] == last;
      assert Filter(a + b, keep) == Filter(a + b', keep) + tail;
      assert Filter(b, keep) == Filter(b', keep) + tail;
      FilterConcat(a, b', keep);
      assert Filter(a, keep) + Filter(b', keep) + tail
          == Filter(a, keep) + (Filter(b', keep) + tail);
    }
  }
}
