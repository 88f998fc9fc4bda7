/** Plain value types shared by every stage of the gravity grid: points and
    vectors in pixel space, points in an object's local 3D space, and an
    optional value for the command-stream decoder. */
module Geometry {

  /** A point or a displacement in 2D pixel (or normalised device) space. */
  datatype Vec2 = Vec2(x: real, y: real)

  /** A point in an object's local 3D space. */
  datatype Vec3 = Vec3(x: real, y: real, z: real)

  datatype Option<+T> = None | Some(value: T)

  const Zero: Vec2 := Vec2(0.0, 0.0)

  function Add(a: Vec2, b: Vec2): Vec2 {
    Vec2(a.x + b.x, a.y + b.y)
  }

  function Sub(a: Vec2, b: Vec2): Vec2 {
    Vec2(a.x - b.x, a.y - b.y)
  }

  function Scale(k: real, v: Vec2): Vec2 {
    Vec2(k * v.x, k * v.y)
  }

  /** Squared Euclidean length. */
  function LengthSq(v: Vec2): real {
    v.x * v.x + v.y * v.y
  }

  function Min(a: real, b: real): real {
    if a <= b then a else b
  }

  function Max(a: real, b: real): real {
    if a >= b then a else b
  }

  /** Vector sum of `f` over a list, accumulated from the front from a zero
      seed; terms that are all zero leave it at the seed. */
  function Sum<T>(xs: seq<T>, f: T -> Vec2): (r: Vec2)
    ensures (forall k :: 0 <= k < |xs| ==> f(xs[k]) == Zero) ==> r == Zero
    decreases |xs|
  {
    if xs == [] then Zero
    else
      var init := xs[..|xs| - 1];
      assert forall k :: 0 <= k < |init| ==> init[k] == xs[k];
      Add(Sum(init, f), f(xs[|xs| - 1]))
  }

  /** Summing over a concatenation sums the two parts. */
  lemma {:induction false} SumAppend<T>(xs: seq<T>, ys: seq<T>, f: T -> Vec2)
    ensures Sum(xs + ys, f) == Add(Sum(xs, f), Sum(ys, f))
    decreases |ys|
  {
    if ys == [] {
      assert xs + ys == xs;
    } else {
      var ys' := ys[..|ys| - 1];
      assert (xs + ys)[..|xs + ys| - 1] == xs + ys';
      SumAppend(xs, ys', f);
    }
  }

  /** Taking one element out of the list takes away exactly its term. */
  lemma SumPick<T>(xs: seq<T>, i: nat, f: T -> Vec2)
    requires i < |xs|
    ensures Sum(xs, f) == Add(f(xs[i]), Sum(xs[..i] + xs[i + 1..], f))
  {
    var pre, post, x := xs[..i], xs[i + 1..], xs[i];
    SplitAt(xs, i);
    SumAppend(pre, [x] + post, f);
    SumCons(x, post, f);
    SumAppend(pre, post, f);
    AddSwap(Sum(pre, f), f(x), Sum(post, f));
  }

  lemma SplitAt<T>(xs: seq<T>, i: nat)
    requires i < |xs|
    ensures xs == xs[..i] + ([xs[i]] + xs[i + 1..])
  {
  }

  lemma SumCons<T>(x: T, xs: seq<T>, f: T -> Vec2)
    ensures Sum([x] + xs, f) == Add(f(x), Sum(xs, f))
  {
    SumAppend([x], xs, f);
    assert [x][..0] == [];
  }

  lemma AddSwap(a: Vec2, b: Vec2, c: Vec2)
    ensures Add(a, Add(b, c)) == Add(b, Add(a, c))
  {
  }

  /** The sum does not depend on the order of the list. */
  lemma {:induction false} SumPermutation<T>(xs: seq<T>, ys: seq<T>, f: T -> Vec2)
    requires multiset(xs) == multiset(ys)
    ensures Sum(xs, f) == Sum(ys, f)
    decreases |xs|
  {
    if xs == [] {
      assert |ys| == |multiset(ys)| == 0;
    } else {
      var x := xs[|xs| - 1];
      var xs' := xs[..|xs| - 1];
      MultisetRemove(xs, |xs| - 1);
      assert xs[..|xs| - 1] + xs[|xs|..] == xs';
      assert x in multiset(ys);
      var i :| 0 <= i < |ys| && ys[i] == x;
      var ys' := ys[..i] + ys[i + 1..];
      MultisetRemove(ys, i);
      SumPick(ys, i, f);
      SumPermutation(xs', ys', f);
    }
  }

  /** Taking out the element at `i` takes one copy of it out of the
      multiset. */
  lemma MultisetRemove<T>(xs: seq<T>, i: nat)
    requires i < |xs|
    ensures multiset(xs[..i] + xs[i + 1..]) == multiset(xs) - multiset{xs[i]}
  {
    assert xs == xs[..i] + [xs[i]] + xs[i + 1..];
  }

  /** When every term but one is zero, the sum is that term. */
  lemma SumOfOne<T>(xs: seq<T>, i: nat, f: T -> Vec2)
    requires i < |xs|
    requires forall k :: 0 <= k < |xs| && k != i ==> f(xs[k]) == Zero
    ensures Sum(xs, f) == f(xs[i])
  {
    var rest := xs[..i] + xs[i + 1..];
    SumPick(xs, i, f);
    forall k | 0 <= k < |rest|
      ensures f(rest[k]) == Zero
    {
      if k < i {
        assert rest[k] == xs[k];
      } else {
        assert rest[k] == xs[k + 1];
      }
    }
  }
}
