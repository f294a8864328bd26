/** Generic sequence helpers standing in for the store's query primitives:
    first match (`findOne`), filtering (`find`) and the flattening that
    `$unwind` performs. */
module Seqs {

  datatype Option<T> = None | Some(value: T)

  /** Index of the first element satisfying `p`, as `findOne` returns the
      first document in collection order. */
  function FirstWhere<T>(s: seq<T>, p: T -> bool): (k: Option<nat>)
    ensures k.None? <==> forall i :: 0 <= i < |s| ==> !p(s[i])
    ensures k.Some? ==> k.value < |s| && p(s[k.value])
    ensures k.Some? ==> forall i :: 0 <= i < k.value ==> !p(s[i])
  {
    if s == [] then None
    else if p(s[0]) then Some(0)
    else match FirstWhere(s[1..], p)
      case None => None
      case Some(j) => Some(j + 1)
  }

  /** The elements of `s` satisfying `p`, in their original order. */
  function Filter<T(!new)>(s: seq<T>, p: T -> bool): (r: seq<T>)
    ensures |r| <= |s|
    ensures forall i :: 0 <= i < |r| ==> p(r[i])
    ensures forall x :: x in r <==> x in s && p(x)
  {
    if s == [] then []
    else if p(s[0]) then [s[0]] + Filter(s[1..], p)
    else Filter(s[1..], p)
  }

  /** `f` applied to every element, in order. */
  function MapSeq<A(!new), B(!new)>(s: seq<A>, f: A -> B): (r: seq<B>)
    ensures |r| == |s|
    ensures forall i :: 0 <= i < |s| ==> r[i] == f(s[i])
    ensures forall y :: y in r <==> exists x :: x in s && y == f(x)
  {
    var r := seq(|s|, i requires 0 <= i < |s| => f(s[i]));
    assert forall x :: x in s ==> exists i :: 0 <= i < |s| && s[i] == x && r[i] == f(x);
    r
  }

  /** The concatenation of `f(x)` over the elements `x` of `s`, in order. */
  function FlatMap<A(!new), B(!new)>(s: seq<A>, f: A -> seq<B>): (r: seq<B>)
    ensures forall y :: y in r <==> exists x :: x in s && y in f(x)
  {
    if s == [] then []
    else
      var rest := FlatMap(s[1..], f);
      assert forall x :: x in s <==> x == s[0] || x in s[1..];
      f(s[0]) + rest
  }

  /** Flattening a single element's image. */
  lemma FlatMapSingle<A(!new), B(!new)>(x: A, f: A -> seq<B>)
    ensures FlatMap([x], f) == f(x)
  {
    assert [x][1..] == [];
    assert f(x) + [] == f(x);
  }

  /** Mapping over three elements. */
  lemma MapSeqThree<A(!new), B(!new)>(a: A, b: A, c: A, f: A -> B)
    ensures MapSeq([a, b, c], f) == [f(a), f(b), f(c)]
  {
  }

  /** Mapping over a sequence with a new first element. */
  lemma MapSeqCons<A(!new), B(!new)>(x: A, s: seq<A>, f: A -> B)
    ensures MapSeq([x] + s, f) == [f(x)] + MapSeq(s, f)
  {
  }
}
