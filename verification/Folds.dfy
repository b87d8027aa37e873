/**
 Accumulation in any order.

 metrics.go:291-299 promises that merging is "independent of order of merges".  A merge is seen
 here through a measure: a quantity read off the accumulated value that a merge simply adds up.
 Every quantity that has a lawful measure depends only on the multiset of merged inputs, whatever
 the order and the shape of the merge tree.
 */
module Folds {
  import opened Permutations

  /** What a Go element type offers: its zero value and its `Add`. */
  datatype Element<!T> = Element(zero: T, add: (T, T) -> T)

  /** A quantity `of` a value, together with the way it accumulates; `ok` are the values it is meant for. */
  datatype Measure<!T, !C> = Measure(ok: T -> bool, of: T -> C, zero: C, plus: (C, C) -> C)

  /** Trigger for the laws: without it the solver would rewrite sums for ever. */
  ghost predicate Use<C>(a: C, b: C, c: C) { true }

  ghost predicate CommutativeMonoid<C(!new)>(zero: C, plus: (C, C) -> C) {
    forall a, b, c {:trigger Use(a, b, c)} :: Use(a, b, c) ==>
      && plus(a, plus(b, c)) == plus(plus(a, b), c)
      && plus(a, b) == plus(b, a)
      && plus(a, zero) == a
  }

  /** Merging two ok values is ok, and the measure of the result is the sum of the two measures. */
  ghost predicate Lawful<T(!new), C(!new)>(add: (T, T) -> T, m: Measure<T, C>) {
    && CommutativeMonoid(m.zero, m.plus)
    && forall x, y {:trigger add(x, y)} :: m.ok(x) && m.ok(y) ==>
      m.ok(add(x, y)) && m.of(add(x, y)) == m.plus(m.of(x), m.of(y))
  }

  lemma Laws<C(!new)>(zero: C, plus: (C, C) -> C, a: C, b: C, c: C)
    requires CommutativeMonoid(zero, plus)
    ensures plus(a, plus(b, c)) == plus(plus(a, b), c)
    ensures plus(a, b) == plus(b, a) && plus(b, c) == plus(c, b) && plus(a, c) == plus(c, a)
    ensures plus(a, zero) == a == plus(zero, a) && plus(b, zero) == b == plus(zero, b)
  {
    assert Use(a, b, c) && Use(b, c, a) && Use(a, c, b) && Use(a, zero, a) && Use(b, zero, b);
  }

  /** Four terms may be added crosswise. */
  lemma Exchange<C(!new)>(zero: C, plus: (C, C) -> C, a: C, b: C, c: C, d: C)
    requires CommutativeMonoid(zero, plus)
    ensures plus(plus(a, b), plus(c, d)) == plus(plus(a, c), plus(b, d))
  {
    calc {
      plus(plus(a, b), plus(c, d));
      { Laws(zero, plus, a, b, plus(c, d)); }
      plus(a, plus(b, plus(c, d)));
      { Laws(zero, plus, b, c, d); Laws(zero, plus, c, b, d); }
      plus(a, plus(c, plus(b, d)));
      { Laws(zero, plus, a, c, plus(b, d)); }
      plus(plus(a, c), plus(b, d));
    }
  }

  /** The measure of a whole list of inputs. */
  ghost function Sum<T, C>(m: Measure<T, C>, xs: seq<T>): C {
    if xs == [] then m.zero else m.plus(m.of(xs[0]), Sum(m, xs[1..]))
  }

  lemma {:induction false} SumAppend<T(!new), C(!new)>(m: Measure<T, C>, xs: seq<T>, ys: seq<T>)
    requires CommutativeMonoid(m.zero, m.plus)
    ensures Sum(m, xs + ys) == m.plus(Sum(m, xs), Sum(m, ys))
  {
    if xs == [] {
      assert xs + ys == ys;
      Laws(m.zero, m.plus, Sum(m, ys), m.zero, m.zero);
    } else {
      assert (xs + ys)[1..] == xs[1..] + ys;
      SumAppend(m, xs[1..], ys);
      Laws(m.zero, m.plus, m.of(xs[0]), Sum(m, xs[1..]), Sum(m, ys));
    }
  }

  /** The sum of a list depends on its multiset of inputs only. */
  lemma {:induction false} SumPermutation<T(!new), C(!new)>(m: Measure<T, C>, xs: seq<T>, ys: seq<T>)
    requires CommutativeMonoid(m.zero, m.plus)
    requires multiset(xs) == multiset(ys)
    ensures Sum(m, xs) == Sum(m, ys)
    decreases |xs|
  {
    if xs == [] {
      assert |multiset(ys)| == 0;
    } else {
      var i := Pull(xs, ys);
      SumPermutation(m, xs[1..], WithoutAt(ys, i));
      SumWithout(m, ys, i);
    }
  }

  lemma {:induction false} SumWithout<T(!new), C(!new)>(m: Measure<T, C>, ys: seq<T>, i: nat)
    requires CommutativeMonoid(m.zero, m.plus) && i < |ys|
    ensures Sum(m, ys) == m.plus(m.of(ys[i]), Sum(m, WithoutAt(ys, i)))
  {
    var front, back := ys[..i], ys[i + 1..];
    assert ys == front + ([ys[i]] + back) && ([ys[i]] + back)[1..] == back;
    SumAppend(m, front, back);
    SumAppend(m, front, [ys[i]] + back);
    Laws(m.zero, m.plus, m.of(ys[i]), Sum(m, front), Sum(m, back));
    Laws(m.zero, m.plus, Sum(m, front), m.of(ys[i]), Sum(m, back));
  }

  /** A way to merge inputs: the receiver's subtree on the left, the argument's on the right. */
  datatype Tree<T> = Leaf(value: T) | Node(left: Tree<T>, right: Tree<T>) {
    function Leaves(): (xs: seq<T>)
      ensures xs != []
    {
      match this
      case Leaf(x) => [x]
      case Node(l, r) => l.Leaves() + r.Leaves()
    }

    function Eval(add: (T, T) -> T): T {
      match this
      case Leaf(x) => x
      case Node(l, r) => add(l.Eval(add), r.Eval(add))
    }
  }

  ghost predicate AllOk<T, C>(m: Measure<T, C>, xs: seq<T>) {
    forall i :: 0 <= i < |xs| ==> m.ok(xs[i])
  }

  lemma {:induction false} TreeSum<T(!new), C(!new)>(add: (T, T) -> T, m: Measure<T, C>, t: Tree<T>)
    requires Lawful(add, m) && AllOk(m, t.Leaves())
    ensures m.ok(t.Eval(add)) && m.of(t.Eval(add)) == Sum(m, t.Leaves())
  {
    match t
    case Leaf(x) =>
      assert m.ok(t.Leaves()[0]) && Sum(m, [x]) == m.plus(m.of(x), m.zero);
      Laws(m.zero, m.plus, m.of(x), m.zero, m.zero);
    case Node(l, r) =>
      var (ls, rs) := (l.Leaves(), r.Leaves());
      assert forall i :: 0 <= i < |ls| ==> ls[i] == t.Leaves()[i];
      assert forall i :: 0 <= i < |rs| ==> rs[i] == t.Leaves()[|ls| + i];
      TreeSum(add, m, l);
      TreeSum(add, m, r);
      SumAppend(m, ls, rs);
  }

  /** Two merge trees over the same inputs measure the same, whatever their order and shape. */
  lemma {:induction false} OrderAndShapeIrrelevant<T(!new), C(!new)>(
      add: (T, T) -> T, m: Measure<T, C>, s: Tree<T>, t: Tree<T>)
    requires Lawful(add, m) && AllOk(m, s.Leaves())
    requires multiset(s.Leaves()) == multiset(t.Leaves())
    ensures m.ok(s.Eval(add)) && m.ok(t.Eval(add)) && m.of(s.Eval(add)) == m.of(t.Eval(add))
  {
    forall i | 0 <= i < |t.Leaves()| ensures m.ok(t.Leaves()[i]) {
      assert t.Leaves()[i] in multiset(s.Leaves());
    }
    TreeSum(add, m, s);
    TreeSum(add, m, t);
    SumPermutation(m, s.Leaves(), t.Leaves());
  }

  /** The Go loop `for _, x := range xs { acc.Add(x) }`. */
  function FoldLeft<T>(add: (T, T) -> T, acc: T, xs: seq<T>): T
    decreases |xs|
  {
    if xs == [] then acc else FoldLeft(add, add(acc, xs[0]), xs[1..])
  }

  /** One more round of the loop. */
  lemma {:induction false} FoldLeftSnoc<T>(add: (T, T) -> T, acc: T, xs: seq<T>, x: T)
    ensures FoldLeft(add, acc, xs + [x]) == add(FoldLeft(add, acc, xs), x)
    decreases |xs|
  {
    if xs == [] {
      assert (xs + [x])[1..] == [];
    } else {
      assert (xs + [x])[1..] == xs[1..] + [x];
      FoldLeftSnoc(add, add(acc, xs[0]), xs[1..], x);
    }
  }

  lemma {:induction false} FoldLeftSum<T(!new), C(!new)>(add: (T, T) -> T, m: Measure<T, C>, acc: T, xs: seq<T>)
    requires Lawful(add, m) && m.ok(acc) && AllOk(m, xs)
    ensures m.ok(FoldLeft(add, acc, xs))
    ensures m.of(FoldLeft(add, acc, xs)) == m.plus(m.of(acc), Sum(m, xs))
    decreases |xs|
  {
    if xs == [] {
      Laws(m.zero, m.plus, m.of(acc), m.zero, m.zero);
    } else {
      FoldLeftSum(add, m, add(acc, xs[0]), xs[1..]);
      Laws(m.zero, m.plus, m.of(acc), m.of(xs[0]), Sum(m, xs[1..]));
    }
  }
}
