/**
 * The array primitives the library uses on every level of the tree, generic
 * in the element type and keyed by an entity's id: filtering out every
 * element with a given id, and looking up the first element with an id (as
 * an index, or as the element itself).
 */
module Lists {
  import opened Wrappers
  import opened Types

  /** Array `filter` that keeps the elements whose id differs from `id`. */
  function Without<T(!new)>(xs: seq<T>, key: T -> Id, id: Id): (r: seq<T>)
    ensures |r| <= |xs|
    ensures forall x :: x in r <==> x in xs && key(x) != id
    ensures (forall x :: x in xs ==> key(x) != id) ==> r == xs
  {
    if xs == [] then []
    else if key(xs[0]) == id then Without(xs[1..], key, id)
    else [xs[0]] + Without(xs[1..], key, id)
  }

  /** Filtering keeps the relative order: filtering a concatenation concatenates the filtered parts. */
  lemma {:induction false} WithoutAppend<T(!new)>(xs: seq<T>, ys: seq<T>, key: T -> Id, id: Id)
    ensures Without(xs + ys, key, id) == Without(xs, key, id) + Without(ys, key, id)
  {
    if xs == [] {
      assert xs + ys == ys;
    } else {
      WithoutCons(xs + ys, key, id);
      assert (xs + ys)[0] == xs[0];
      assert (xs + ys)[1..] == xs[1..] + ys;
      WithoutAppend(xs[1..], ys, key, id);
    }
  }

  /** One step of the filter, for a non-empty sequence. */
  lemma WithoutCons<T(!new)>(xs: seq<T>, key: T -> Id, id: Id)
    requires xs != []
    ensures Without(xs, key, id) == (if key(xs[0]) == id then [] else [xs[0]]) + Without(xs[1..], key, id)
  {
  }

  /** Filtering out the id every element holds leaves nothing. */
  lemma {:induction false} WithoutAll<T(!new)>(xs: seq<T>, key: T -> Id, id: Id)
    requires forall x :: x in xs ==> key(x) == id
    ensures Without(xs, key, id) == []
  {
    if xs != [] {
      WithoutAll(xs[1..], key, id);
    }
  }

  /** Filtering out the id of an element just appended, and of nothing before it, removes just that element. */
  lemma WithoutUndoesAppend<T(!new)>(xs: seq<T>, x: T, key: T -> Id)
    requires forall y :: y in xs ==> key(y) != key(x)
    ensures Without(xs + [x], key, key(x)) == xs
  {
    WithoutAppend(xs, [x], key, key(x));
  }

  /** Array `findIndex` by id: the first index holding that id, or -1. */
  function IndexOfId<T>(xs: seq<T>, key: T -> Id, id: Id): (r: int)
    ensures -1 <= r < |xs|
    ensures r >= 0 ==> key(xs[r]) == id && forall k :: 0 <= k < r ==> key(xs[k]) != id
    ensures r == -1 <==> forall k :: 0 <= k < |xs| ==> key(xs[k]) != id
  {
    if xs == [] then -1
    else if key(xs[0]) == id then 0
    else
      var rest := IndexOfId(xs[1..], key, id);
      if rest == -1 then -1 else rest + 1
  }

  /** Index `i` holds the first element of `xs` with id `id`. */
  predicate FirstWithId<T>(xs: seq<T>, key: T -> Id, id: Id, i: int) {
    0 <= i < |xs| && key(xs[i]) == id && forall k :: 0 <= k < i ==> key(xs[k]) != id
  }

  /** Array `find` by id: the first element holding that id. */
  function FindById<T(!new)>(xs: seq<T>, key: T -> Id, id: Id): (r: Option<T>)
    ensures r.Some? <==> exists x :: x in xs && key(x) == id
    ensures r.Some? ==> r.value in xs && key(r.value) == id
    ensures r.Some? ==> exists i :: FirstWithId(xs, key, id, i) && xs[i] == r.value
  {
    var i := IndexOfId(xs, key, id);
    if i == -1 then None else Some(xs[i])
  }

  /** No two elements share an id. */
  predicate DistinctKeys<T>(xs: seq<T>, key: T -> Id) {
    forall i, j :: 0 <= i < j < |xs| ==> key(xs[i]) != key(xs[j])
  }

  /** Filtering never makes two elements share an id. */
  lemma {:induction false} WithoutKeepsDistinct<T(!new)>(xs: seq<T>, key: T -> Id, id: Id)
    requires DistinctKeys(xs, key)
    ensures DistinctKeys(Without(xs, key, id), key)
  {
    if xs != [] {
      WithoutKeepsDistinct(xs[1..], key, id);
      var rest := Without(xs[1..], key, id);
      forall y | y in rest ensures key(y) != key(xs[0]) {
        var k :| 0 <= k < |xs[1..]| && xs[1..][k] == y;
        assert xs[k + 1] == y;
      }
    }
  }

  /** Two id-distinct sequences with no id in common concatenate to an id-distinct one. */
  lemma AppendKeepsDistinct<T>(xs: seq<T>, ys: seq<T>, key: T -> Id)
    requires DistinctKeys(xs, key) && DistinctKeys(ys, key)
    requires forall a, b :: 0 <= a < |xs| && 0 <= b < |ys| ==> key(xs[a]) != key(ys[b])
    ensures DistinctKeys(xs + ys, key)
  {
    forall i, j | 0 <= i < j < |xs + ys| ensures key((xs + ys)[i]) != key((xs + ys)[j]) {
      if j < |xs| {
        assert key(xs[i]) != key(xs[j]);
      } else if i < |xs| {
        assert key(xs[i]) != key(ys[j - |xs|]);
      } else {
        assert key(ys[i - |xs|]) != key(ys[j - |xs|]);
      }
    }
  }

  /** `find` looks only at ids: two sequences with the same ids position by position agree on where an id is. */
  lemma {:induction false} IndexOfIdSameKeys<T, U>(xs: seq<T>, kx: T -> Id, ys: seq<U>, ky: U -> Id, id: Id)
    requires |xs| == |ys|
    requires forall i :: 0 <= i < |xs| ==> kx(xs[i]) == ky(ys[i])
    ensures IndexOfId(xs, kx, id) == IndexOfId(ys, ky, id)
  {
    if xs != [] && kx(xs[0]) != id {
      IndexOfIdSameKeys(xs[1..], kx, ys[1..], ky, id);
    }
  }

  /** With distinct ids, `find` by an element's id finds that very element. */
  lemma FindByIdDistinct<T(!new)>(xs: seq<T>, key: T -> Id, i: nat)
    requires DistinctKeys(xs, key)
    requires i < |xs|
    ensures FindById(xs, key, key(xs[i])) == Some(xs[i])
  {
    var r := IndexOfId(xs, key, key(xs[i]));
    assert r != -1 by {
      assert key(xs[i]) == key(xs[i]);
    }
  }

  /** One step of `find`, for a non-empty sequence. */
  lemma FindByIdCons<T(!new)>(xs: seq<T>, key: T -> Id, id: Id)
    requires xs != []
    ensures FindById(xs, key, id) == if key(xs[0]) == id then Some(xs[0]) else FindById(xs[1..], key, id)
  {
    if key(xs[0]) != id && IndexOfId(xs[1..], key, id) != -1 {
      assert xs[1..][IndexOfId(xs[1..], key, id)] == xs[IndexOfId(xs[1..], key, id) + 1];
    }
  }

  /** Filtering out one id does not change what `find` returns for any other id. */
  lemma {:induction false} FindByIdWithout<T(!new)>(xs: seq<T>, key: T -> Id, id: Id, other: Id)
    requires other != id
    ensures FindById(Without(xs, key, id), key, other) == FindById(xs, key, other)
  {
    if xs != [] {
      FindByIdWithout(xs[1..], key, id, other);
      WithoutCons(xs, key, id);
      FindByIdCons(xs, key, other);
      if key(xs[0]) != id {
        var w := [xs[0]] + Without(xs[1..], key, id);
        assert w[0] == xs[0] && w[1..] == Without(xs[1..], key, id);
        FindByIdCons(w, key, other);
      }
    }
  }
}
