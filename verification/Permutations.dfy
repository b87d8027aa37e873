/** Lists with the same elements in another order. */
module Permutations {
  function Apply<A, B>(f: A -> B, xs: seq<A>): (r: seq<B>)
    ensures |r| == |xs| && forall i :: 0 <= i < |xs| ==> r[i] == f(xs[i])
  {
    seq(|xs|, i requires 0 <= i < |xs| => f(xs[i]))
  }

  /** The list without its element i. */
  function WithoutAt<A>(xs: seq<A>, i: nat): seq<A>
    requires i < |xs|
  {
    xs[..i] + xs[i + 1..]
  }

  lemma Removed<A>(xs: seq<A>, i: nat)
    requires i < |xs|
    ensures multiset(WithoutAt(xs, i)) == multiset(xs) - multiset{xs[i]}
    ensures multiset(xs) == multiset(WithoutAt(xs, i)) + multiset{xs[i]}
  {
    var front, x, back := xs[..i], xs[i], xs[i + 1..];
    assert xs == front + [x] + back;
    assert multiset(xs) == multiset(front) + multiset([x]) + multiset(back);
  }

  lemma Tail<A>(xs: seq<A>)
    requires xs != []
    ensures multiset(xs[1..]) == multiset(xs) - multiset{xs[0]}
    ensures multiset(xs) == multiset{xs[0]} + multiset(xs[1..])
  {
    assert xs == [xs[0]] + xs[1..];
  }

  /** Element i may be moved to the front. */
  lemma MovedFront<A>(xs: seq<A>, i: nat)
    requires i < |xs|
    ensures multiset([xs[i]] + WithoutAt(xs, i)) == multiset(xs)
  {
    Removed(xs, i);
    hide WithoutAt;
  }

  lemma Pull<A>(xs: seq<A>, ys: seq<A>) returns (i: nat)
    requires xs != [] && multiset(xs) == multiset(ys)
    ensures i < |ys| && ys[i] == xs[0] && multiset(xs[1..]) == multiset(WithoutAt(ys, i))
  {
    assert xs[0] in multiset(ys);
    i :| 0 <= i < |ys| && ys[i] == xs[0];
    Tail(xs);
    Removed(ys, i);
  }

  lemma SameMembers<A>(xs: seq<A>, ys: seq<A>)
    requires multiset(xs) == multiset(ys)
    ensures |xs| == |ys| && forall y <- ys :: y in xs
  {
    assert |multiset(xs)| == |xs| && |multiset(ys)| == |ys|;
    forall y <- ys ensures y in xs {
      assert y in multiset(xs);
    }
  }

  lemma ApplyAppend<A, B>(f: A -> B, xs: seq<A>, ys: seq<A>)
    ensures Apply(f, xs + ys) == Apply(f, xs) + Apply(f, ys)
  {
  }

  lemma {:induction false} ApplyPermutation<A, B>(f: A -> B, xs: seq<A>, ys: seq<A>)
    requires multiset(xs) == multiset(ys)
    ensures multiset(Apply(f, xs)) == multiset(Apply(f, ys))
  {
    if xs == [] {
      assert |multiset(ys)| == 0;
    } else {
      var i := Pull(xs, ys);
      var before, after := ys[..i], ys[i + 1..];
      ApplyPermutation(f, xs[1..], before + after);
      assert xs == [xs[0]] + xs[1..] && ys == before + ([xs[0]] + after);
      ApplyAppend(f, [xs[0]], xs[1..]);
      ApplyAppend(f, before, after);
      ApplyAppend(f, before, [xs[0]] + after);
      ApplyAppend(f, [xs[0]], after);
    }
  }

  /** Every order of the images is the image of an order. */
  lemma {:induction false} LiftPermutation<A, B>(f: A -> B, xs: seq<A>, p: seq<B>) returns (ys: seq<A>)
    requires multiset(p) == multiset(Apply(f, xs))
    ensures multiset(ys) == multiset(xs) && Apply(f, ys) == p
    decreases |p|
  {
    if p == [] {
      assert |multiset(Apply(f, xs))| == 0;
      ys := [];
    } else {
      var i := Pull(p, Apply(f, xs));
      assert xs[i] in xs && f(xs[i]) == p[0];
      WithoutApply(f, xs, i);
      hide WithoutAt, Apply;
      var rest := LiftPermutation(f, WithoutAt(xs, i), p[1..]);
      ys := [xs[i]] + rest;
      MovedFront(xs, i);
      assert multiset(ys) == multiset{xs[i]} + multiset(rest);
      ApplyFront(f, xs[i], rest);
      assert p == [p[0]] + p[1..];
    }
  }

  lemma WithoutApply<A, B>(f: A -> B, xs: seq<A>, i: nat)
    requires i < |xs|
    ensures WithoutAt(Apply(f, xs), i) == Apply(f, WithoutAt(xs, i))
  {
  }

  lemma ApplyFront<A, B>(f: A -> B, x: A, xs: seq<A>)
    ensures Apply(f, [x] + xs) == [f(x)] + Apply(f, xs)
  {
  }
}
