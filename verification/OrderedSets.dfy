/**
 Insertion-ordered sets, as the graph-partition pass uses them: sequences without repeats.
 Every operation says what it does to the underlying set of elements.
 */
module OrderedSets {

  ghost predicate Distinct<T>(s: seq<T>) {
    forall i, j :: 0 <= i < j < |s| ==> s[i] != s[j]
  }

  function Elems<T(==)>(s: seq<T>): set<T> {
    set x | x in s
  }

  lemma ElemsCons<T>(s: seq<T>)
    requires s != []
    ensures Elems(s) == {s[0]} + Elems(s[1..])
    ensures Distinct(s) ==> Distinct(s[1..]) && s[0] !in Elems(s[1..])
  {
    assert s == [s[0]] + s[1..];
  }

  /** Adds the elements of `more` that are not yet present, in order. */
  function Update<T(==)>(s: seq<T>, more: seq<T>): (r: seq<T>)
    requires Distinct(s)
    ensures Distinct(r) && s <= r
    ensures Elems(r) == Elems(s) + Elems(more)
    decreases |more|
  {
    if more == [] then s
    else
      ElemsCons(more);
      Update(if more[0] in s then s else s + [more[0]], more[1..])
  }

  /** The elements that lie in `keep`, in their old order. */
  function Intersection<T(==)>(s: seq<T>, keep: set<T>): (r: seq<T>)
    ensures Elems(r) == Elems(s) * keep
    ensures Distinct(s) ==> Distinct(r)
  {
    if s == [] then []
    else
      ElemsCons(s);
      var rest := Intersection(s[1..], keep);
      if s[0] in keep then ElemsCons([s[0]] + rest); [s[0]] + rest else rest
  }

  /** The elements that lie outside `drop`, in their old order. */
  function Difference<T(==)>(s: seq<T>, drop: set<T>): (r: seq<T>)
    ensures Elems(r) == Elems(s) - drop
    ensures Distinct(s) ==> Distinct(r)
  {
    Intersection(s, Elems(s) - drop)
  }
}
