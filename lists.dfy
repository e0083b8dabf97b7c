/**
 * `flatten_list`: removes one level of nesting from a list whose elements
 * may themselves be lists; elements that are not lists are kept as they are.
 */
module Lists {

  /** A list element: a plain value or a nested list. */
  datatype Item<T> = Atom(value: T) | List(items: seq<Item<T>>)

  /** What one element contributes: a nested list's elements, or the element itself. */
  function Spread<T>(x: Item<T>): seq<Item<T>>
  {
    if x.List? then x.items else [x]
  }

  /** `flatten_list(list_to_flatten)`. */
  function Flatten<T>(xs: seq<Item<T>>): (r: seq<Item<T>>)
    ensures xs == [] ==> r == []
    ensures forall i :: 0 <= i < |xs| ==> forall y :: y in Spread(xs[i]) ==> y in r
    ensures forall y :: y in r ==> exists i :: 0 <= i < |xs| && y in Spread(xs[i])
  {
    if xs == [] then []
    else Spread(xs[0]) + Flatten(xs[1..])
  }

  /** Flattening distributes over concatenation. */
  lemma {:induction false} FlattenAppend<T>(a: seq<Item<T>>, b: seq<Item<T>>)
    ensures Flatten(a + b) == Flatten(a) + Flatten(b)
    decreases |a|
  {
    if a != [] {
      assert (a + b)[0] == a[0] && (a + b)[1..] == a[1..] + b;
      FlattenAppend(a[1..], b);
    } else {
      assert a + b == b;
    }
  }

  /** A list without nested lists is left as it is. */
  lemma {:induction false} FlattenAtoms<T>(xs: seq<Item<T>>)
    requires forall i :: 0 <= i < |xs| ==> xs[i].Atom?
    ensures Flatten(xs) == xs
    decreases |xs|
  {
    if xs != [] {
      FlattenAtoms(xs[1..]);
    }
  }

  /** The length of the result is the total of what each element contributes. */
  function Contributed<T>(xs: seq<Item<T>>): nat
  {
    if xs == [] then 0 else |Spread(xs[0])| + Contributed(xs[1..])
  }

  lemma {:induction false} FlattenLength<T>(xs: seq<Item<T>>)
    ensures |Flatten(xs)| == Contributed(xs)
    decreases |xs|
  {
    if xs != [] {
      FlattenLength(xs[1..]);
    }
  }

  /** A one-element list flattens to what its element contributes. */
  lemma FlattenOne<T>(x: Item<T>)
    ensures Flatten([x]) == Spread(x)
  {
    assert [x][1..] == [];
  }

  /** Only one level is removed: a list nested two deep comes out nested one deep. */
  lemma OneLevel<T>(inner: seq<Item<T>>)
    ensures Flatten([List([List(inner)])]) == [List(inner)]
  {
  }
}
