/** Operations of .NET's `List<T>` that the document model relies on:
    linear search for the first match, and `Remove`, which deletes the
    first occurrence of an element and leaves the rest in order. */
module Lists {
  import opened Wrappers

  /** No element occurs twice. */
  predicate NoDuplicates<T(==)>(xs: seq<T>) {
    forall i, j :: 0 <= i < j < |xs| ==> xs[i] != xs[j]
  }

  /** The scan from position `from` on. */
  function FirstIndexFrom<T(==)>(xs: seq<T>, x: T, from: nat): (r: Option<nat>)
    requires from <= |xs|
    ensures r.None? ==> forall j :: from <= j < |xs| ==> xs[j] != x
    ensures r.Some? ==> from <= r.value < |xs| && xs[r.value] == x
    ensures r.Some? ==> forall j :: from <= j < r.value ==> xs[j] != x
    decreases |xs| - from
  {
    if from == |xs| then None
    else if xs[from] == x then Some(from)
    else FirstIndexFrom(xs, x, from + 1)
  }

  /** The index of the first occurrence of `x` in `xs`, if any. */
  function FirstIndex<T(==)>(xs: seq<T>, x: T): (r: Option<nat>)
    ensures r.None? <==> x !in xs
    ensures r.Some? ==> r.value < |xs| && xs[r.value] == x
    ensures r.Some? ==> forall j :: 0 <= j < r.value ==> xs[j] != x
  {
    FirstIndexFrom(xs, x, 0)
  }

  /** A position holding `x` with no earlier `x` is the one `FirstIndex` finds. */
  lemma FirstIndexIs<T>(xs: seq<T>, x: T, i: nat)
    requires i < |xs| && xs[i] == x
    requires forall j :: 0 <= j < i ==> xs[j] != x
    ensures FirstIndex(xs, x) == Some(i)
  {
    assert x in xs;
  }

  /** `List<T>.Remove`: drop the first occurrence of `x`; a no-op if absent. */
  function RemoveFirst<T(==)>(xs: seq<T>, x: T): (r: seq<T>)
    ensures x !in xs ==> r == xs
    ensures x in xs ==> |r| == |xs| - 1
    ensures forall y :: y in r ==> y in xs
  {
    var found := FirstIndex(xs, x);
    if found.Some? then xs[..found.value] + xs[found.value + 1..] else xs
  }

  /** Removing one occurrence takes exactly one `x` out of the multiset. */
  lemma RemoveFirstMultiset<T>(xs: seq<T>, x: T)
    ensures multiset(RemoveFirst(xs, x)) == multiset(xs) - multiset{x}
  {
    var found := FirstIndex(xs, x);
    if found.Some? {
      var i := found.value;
      assert xs == xs[..i] + [x] + xs[i + 1..];
    }
  }

  /** On a list without repeats, removal leaves a list without repeats that
      no longer holds `x`. */
  lemma RemoveFirstDistinct<T>(xs: seq<T>, x: T)
    requires NoDuplicates(xs)
    ensures NoDuplicates(RemoveFirst(xs, x)) && x !in RemoveFirst(xs, x)
  {
    var found := FirstIndex(xs, x);
    if found.Some? {
      var i := found.value;
      var r := RemoveFirst(xs, x);
      assert |r| == |xs| - 1;
      assert forall k :: 0 <= k < |r| ==> r[k] == xs[if k < i then k else k + 1];
      forall k | 0 <= k < |r| ensures r[k] != x {
        assert xs[if k < i then k else k + 1] != xs[i];
      }
    }
  }

  lemma AppendAssoc<T>(a: seq<T>, b: seq<T>, c: seq<T>)
    ensures a + (b + c) == (a + b) + c
  {
  }
}
