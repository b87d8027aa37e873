/** What a stable sort is, and that there is only one. */
module StableSorts {
  import opened Basics

  /** Names the instances of the laws, so that the solver does not try them all. */
  ghost predicate Use<T>(x: T, y: T, z: T) { true }

  ghost predicate StrictWeak<T(!new)>(lt: (T, T) -> bool) {
    forall x, y, z {:trigger Use(x, y, z)} :: Use(x, y, z) ==>
      && (lt(x, y) ==> !lt(y, x))
      && (lt(x, z) ==> lt(x, y) || lt(y, z))
  }

  lemma Weak<T(!new)>(lt: (T, T) -> bool, x: T, y: T, z: T)
    requires StrictWeak(lt)
    ensures lt(x, y) ==> !lt(y, x)
    ensures lt(x, z) ==> lt(x, y) || lt(y, z)
    ensures Tied(lt, x, x)
    ensures Tied(lt, x, y) && Tied(lt, y, z) ==> Tied(lt, x, z)
  {
    assert Use(x, y, z) && Use(z, y, x) && Use(x, x, x);
  }

  ghost predicate Tied<T>(lt: (T, T) -> bool, x: T, y: T) { !lt(x, y) && !lt(y, x) }

  /** The elements that are tied with e, in order. */
  ghost function Ties<T>(lt: (T, T) -> bool, xs: seq<T>, e: T): seq<T> {
    if xs == [] then [] else (if Tied(lt, xs[0], e) then [xs[0]] else []) + Ties(lt, xs[1..], e)
  }

  ghost predicate Sorted<T>(lt: (T, T) -> bool, xs: seq<T>) {
    forall i, j :: 0 <= i < j < |xs| ==> !lt(xs[j], xs[i])
  }

  /** The same elements, with tied elements in the same order. */
  ghost predicate SameTies<T(!new)>(lt: (T, T) -> bool, xs: seq<T>, ys: seq<T>) {
    forall e: T :: Ties(lt, xs, e) == Ties(lt, ys, e)
  }

  /** ys is xs sorted, with tied elements left in their order. */
  ghost predicate StableSorted<T(!new)>(lt: (T, T) -> bool, xs: seq<T>, ys: seq<T>) {
    Sorted(lt, ys) && SameTies(lt, xs, ys)
  }

  lemma {:induction false} TiesAppend<T>(lt: (T, T) -> bool, xs: seq<T>, ys: seq<T>, e: T)
    ensures Ties(lt, xs + ys, e) == Ties(lt, xs, e) + Ties(lt, ys, e)
  {
    if xs == [] {
      assert xs + ys == ys;
    } else {
      assert (xs + ys)[1..] == xs[1..] + ys && (xs + ys)[0] == xs[0];
      TiesAppend(lt, xs[1..], ys, e);
      hide Tied;
      Assoc(if Tied(lt, xs[0], e) then [xs[0]] else [], Ties(lt, xs[1..], e), Ties(lt, ys, e));
    }
  }

  lemma {:induction false} TiesAre<T>(lt: (T, T) -> bool, xs: seq<T>, e: T, x: T)
    requires x in Ties(lt, xs, e)
    ensures x in xs && Tied(lt, x, e)
  {
    if !(Tied(lt, xs[0], e) && x == xs[0]) {
      TiesAre(lt, xs[1..], e, x);
    }
  }

  /** There is one stable sort of xs. */
  lemma {:induction false} StableSortUnique<T(!new)>(lt: (T, T) -> bool, ys: seq<T>, zs: seq<T>)
    requires StrictWeak(lt) && Sorted(lt, ys) && Sorted(lt, zs) && SameTies(lt, ys, zs)
    ensures ys == zs
  {
    if ys == [] || zs == [] {
      if ys != [] { assert Ties(lt, zs, ys[0]) == Ties(lt, ys, ys[0]); Weak(lt, ys[0], ys[0], ys[0]); }
      if zs != [] { assert Ties(lt, zs, zs[0]) == Ties(lt, ys, zs[0]); Weak(lt, zs[0], zs[0], zs[0]); }
    } else {
      FirstsAgree(lt, ys, zs);
      forall e: T ensures Ties(lt, ys[1..], e) == Ties(lt, zs[1..], e) {
        var first := if Tied(lt, ys[0], e) then [ys[0]] else [];
        assert first + Ties(lt, ys[1..], e) == Ties(lt, ys, e) == Ties(lt, zs, e) == first + Ties(lt, zs[1..], e);
        assert (first + Ties(lt, ys[1..], e))[|first|..] == Ties(lt, ys[1..], e);
        assert (first + Ties(lt, zs[1..], e))[|first|..] == Ties(lt, zs[1..], e);
      }
      StableSortUnique(lt, ys[1..], zs[1..]);
    }
  }

  lemma FirstsAgree<T(!new)>(lt: (T, T) -> bool, ys: seq<T>, zs: seq<T>)
    requires StrictWeak(lt) && Sorted(lt, ys) && Sorted(lt, zs) && SameTies(lt, ys, zs) && ys != [] && zs != []
    ensures ys[0] == zs[0]
  {
    var y, z := ys[0], zs[0];
    Weak(lt, y, y, y);
    Weak(lt, z, z, z);
    NotAfterFirst(lt, ys, zs, y);
    NotAfterFirst(lt, zs, ys, z);
    assert Ties(lt, ys, y)[0] == y && Ties(lt, zs, y)[0] == z;
  }

  lemma NotAfterFirst<T(!new)>(lt: (T, T) -> bool, ys: seq<T>, zs: seq<T>, y: T)
    requires StrictWeak(lt) && Sorted(lt, zs) && SameTies(lt, ys, zs) && ys != [] && zs != [] && y == ys[0]
    ensures !lt(y, zs[0])
  {
    Weak(lt, y, y, y);
    assert Ties(lt, ys, y) == Ties(lt, zs, y);
    var t := Ties(lt, zs, y)[0];
    assert t in Ties(lt, zs, y);
    TiesAre(lt, zs, y, t);
    assert !lt(t, zs[0]);
    Weak(lt, y, t, zs[0]);
  }

  function Reverse<T>(xs: seq<T>): (r: seq<T>)
    ensures |r| == |xs| && forall i :: 0 <= i < |xs| ==> r[i] == xs[|xs| - 1 - i]
  {
    if xs == [] then [] else Reverse(xs[1..]) + [xs[0]]
  }

  /** Backwards ties are the ties of the reverse order, backwards. */
  lemma {:induction false} TiesReverse<T>(lt: (T, T) -> bool, gt: (T, T) -> bool, xs: seq<T>, e: T)
    requires forall x, y :: gt(x, y) == lt(y, x)
    ensures Ties(gt, Reverse(xs), e) == Reverse(Ties(lt, xs, e))
  {
    if xs != [] {
      var x, rest := xs[0], Reverse(xs[1..]);
      TiesReverse(lt, gt, xs[1..], e);
      TiesAppend(gt, rest, [x], e);
      assert [x][1..] == [];
      if Tied(lt, x, e) {
        assert Ties(lt, xs, e)[0] == x && Ties(lt, xs, e)[1..] == Ties(lt, xs[1..], e);
      }
    }
  }

  /** Sorting by the reverse order is reversing, sorting and reversing back. */
  lemma {:induction false} ReversedSort<T(!new)>(lt: (T, T) -> bool, gt: (T, T) -> bool, xs: seq<T>, ys: seq<T>)
    requires (forall x, y :: gt(x, y) == lt(y, x)) && StableSorted(lt, Reverse(xs), ys)
    ensures StableSorted(gt, xs, Reverse(ys))
  {
    var zs := Reverse(ys);
    forall i, j | 0 <= i < j < |zs| ensures !gt(zs[j], zs[i]) {
      assert !lt(ys[|ys| - 1 - i], ys[|ys| - 1 - j]);
    }
    forall e: T ensures Ties(gt, xs, e) == Ties(gt, zs, e) {
      ReverseTwice(xs);
      TiesReverse(lt, gt, Reverse(xs), e);
      TiesReverse(lt, gt, ys, e);
      assert Ties(lt, Reverse(xs), e) == Ties(lt, ys, e);
    }
  }

  lemma {:induction false} ReverseTwice<T>(xs: seq<T>)
    ensures Reverse(Reverse(xs)) == xs
  {
  }

  // ----- Insertion sort, with a comparison that need not be an order

  /** x moved forward from the end of p past every element it is said to come before. */
  function Inserted<T>(says: (T, T) -> bool, p: seq<T>, x: T): seq<T> {
    if p == [] || !says(x, p[|p| - 1]) then p + [x] else Inserted(says, p[..|p| - 1], x) + [p[|p| - 1]]
  }

  function InsertionSort<T>(says: (T, T) -> bool, xs: seq<T>): seq<T> {
    if xs == [] then [] else Inserted(says, InsertionSort(says, xs[..|xs| - 1]), xs[|xs| - 1])
  }

  /** The comparison never contradicts the order, whatever it says of tied elements. */
  ghost predicate Respects<T(!new)>(says: (T, T) -> bool, lt: (T, T) -> bool) {
    forall x, y :: if says(x, y) then !lt(y, x) else !lt(x, y)
  }

  /** Of the elements tied with e it says that none comes before another; or else that each does. */
  ghost predicate Keeps<T(!new)>(says: (T, T) -> bool, lt: (T, T) -> bool, e: T) {
    forall x, y :: Tied(lt, x, e) && Tied(lt, y, e) ==> !says(x, y)
  }

  ghost predicate Flips<T(!new)>(says: (T, T) -> bool, lt: (T, T) -> bool, e: T) {
    forall x, y :: Tied(lt, x, e) && Tied(lt, y, e) ==> says(x, y)
  }

  lemma {:induction false} InsertedElements<T>(says: (T, T) -> bool, p: seq<T>, x: T)
    ensures multiset(Inserted(says, p, x)) == multiset(p + [x])
    ensures forall y <- Inserted(says, p, x) :: y == x || y in p
  {
    if p != [] && says(x, p[|p| - 1]) {
      var n := |p| - 1;
      InsertedElements(says, p[..n], x);
      assert p == p[..n] + [p[n]];
    }
  }

  lemma SortedMore<T>(lt: (T, T) -> bool, p: seq<T>, x: T)
    ensures Sorted(lt, p + [x]) <==> Sorted(lt, p) && forall y <- p :: !lt(x, y)
  {
    var q := p + [x];
    if Sorted(lt, q) {
      forall i, j | 0 <= i < j < |p| ensures !lt(p[j], p[i]) {
        assert q[j] == p[j] && q[i] == p[i];
      }
      forall y <- p ensures !lt(x, y) {
        var i :| 0 <= i < |p| && p[i] == y;
        assert q[i] == y && q[|p|] == x;
      }
    }
  }

  lemma {:induction false} InsertedSorted<T(!new)>(says: (T, T) -> bool, lt: (T, T) -> bool, p: seq<T>, x: T)
    requires StrictWeak(lt) && Respects(says, lt) && Sorted(lt, p)
    ensures Sorted(lt, Inserted(says, p, x))
  {
    if p == [] {
    } else {
      var n := |p| - 1;
      var front, last := p[..n], p[n];
      assert p == front + [last] && (says(x, last) || !lt(x, last)) && (says(x, last) ==> !lt(last, x));
      hide Sorted, StrictWeak, Respects;
      SortedMore(lt, front, last);
      if !says(x, last) {
        forall y <- front ensures !lt(x, y) {
          Weak(lt, x, last, y);
        }
        SortedMore(lt, p, x);
      } else {
        InsertedSorted(says, lt, front, x);
        InsertedElements(says, front, x);
        SortedMore(lt, Inserted(says, front, x), last);
      }
    }
  }

  lemma {:induction false} TiesOne<T>(lt: (T, T) -> bool, p: seq<T>, x: T, e: T)
    ensures Ties(lt, p + [x], e) == Ties(lt, p, e) + if Tied(lt, x, e) then [x] else []
  {
    TiesAppend(lt, p, [x], e);
    assert [x][1..] == [];
  }

  lemma {:induction false} TiesOneMore<T>(lt: (T, T) -> bool, p: seq<T>, x: T, e: T)
    ensures !Tied(lt, x, e) ==> Ties(lt, p + [x], e) == Ties(lt, p, e)
    ensures Tied(lt, x, e) ==> Ties(lt, p + [x], e) == Ties(lt, p, e) + [x]
  {
    TiesOne(lt, p, x, e);
  }

  lemma {:induction false} InsertedTies<T(!new)>(says: (T, T) -> bool, lt: (T, T) -> bool, p: seq<T>, x: T, e: T)
    requires !Tied(lt, x, e) || Keeps(says, lt, e)
    ensures Ties(lt, Inserted(says, p, x), e) == Ties(lt, p + [x], e)
  {
    TiesOne(lt, p, x, e);
    if p != [] && says(x, p[|p| - 1]) {
      var n := |p| - 1;
      InsertedTies(says, lt, p[..n], x, e);
      TiesOne(lt, p[..n], x, e);
      TiesOne(lt, p[..n], p[n], e);
      TiesOne(lt, Inserted(says, p[..n], x), p[n], e);
      assert p == p[..n] + [p[n]];
    }
  }

  /** An element that is said to come before all those it is tied with ends up in front of them. */
  lemma {:induction false} InsertedInFront<T(!new)>(says: (T, T) -> bool, lt: (T, T) -> bool, p: seq<T>, x: T, e: T)
    requires StrictWeak(lt) && Respects(says, lt) && Sorted(lt, p) && Tied(lt, x, e) && Flips(says, lt, e)
    ensures Ties(lt, Inserted(says, p, x), e) == [x] + Ties(lt, p, e)
  {
    if p == [] {
      TiesOne(lt, p, x, e);
    } else if !says(x, p[|p| - 1]) {
      NoneTied(lt, p, x, e);
      TiesOne(lt, p, x, e);
    } else {
      var n := |p| - 1;
      InsertedInFront(says, lt, p[..n], x, e);
      TiesOne(lt, p[..n], p[n], e);
      TiesOne(lt, Inserted(says, p[..n], x), p[n], e);
      assert p == p[..n] + [p[n]];
      Assoc([x], Ties(lt, p[..n], e), if Tied(lt, p[n], e) then [p[n]] else []);
    }
  }

  /** No element is tied with e if the last one is before it. */
  lemma {:induction false} NoneTied<T(!new)>(lt: (T, T) -> bool, p: seq<T>, x: T, e: T)
    requires StrictWeak(lt) && Sorted(lt, p) && Tied(lt, x, e)
    requires p != [] ==> !lt(x, p[|p| - 1]) && !Tied(lt, p[|p| - 1], e)
    ensures Ties(lt, p, e) == []
  {
    if p != [] {
      var n := |p| - 1;
      assert p == p[..n] + [p[n]];
      TiesOne(lt, p[..n], p[n], e);
      Weak(lt, p[n], e, x);
      Weak(lt, x, p[n], e);
      Weak(lt, p[n], x, e);
      if n > 0 {
        Weak(lt, x, p[n], p[n - 1]);
        Weak(lt, p[n], p[n - 1], x);
        Weak(lt, p[n], p[n - 1], e);
        Weak(lt, e, p[n - 1], p[n]);
      }
      NoneTied(lt, p[..n], x, e);
    }
  }

  /** The result is sorted whatever the comparison says of tied elements. */
  lemma {:induction false} SortSorts<T(!new)>(says: (T, T) -> bool, lt: (T, T) -> bool, xs: seq<T>)
    requires StrictWeak(lt) && Respects(says, lt)
    ensures Sorted(lt, InsertionSort(says, xs)) && multiset(InsertionSort(says, xs)) == multiset(xs)
  {
    if xs != [] {
      var n := |xs| - 1;
      SortSorts(says, lt, xs[..n]);
      InsertedSorted(says, lt, InsertionSort(says, xs[..n]), xs[n]);
      InsertedElements(says, InsertionSort(says, xs[..n]), xs[n]);
      assert xs == xs[..n] + [xs[n]];
    }
  }

  /** Tied elements keep their order where the comparison says that none comes first. */
  lemma {:induction false} SortKeeps<T(!new)>(says: (T, T) -> bool, lt: (T, T) -> bool, xs: seq<T>, e: T)
    requires Keeps(says, lt, e)
    ensures Ties(lt, InsertionSort(says, xs), e) == Ties(lt, xs, e)
  {
    if xs != [] {
      var n := |xs| - 1;
      var p, x := InsertionSort(says, xs[..n]), xs[n];
      SortKeeps(says, lt, xs[..n], e);
      assert xs == xs[..n] + [x];
      hide Inserted, Ties, Keeps;
      InsertedTies(says, lt, p, x, e);
      TiesOne(lt, xs[..n], x, e);
      TiesOne(lt, p, x, e);
    }
  }

  /** They come out backwards where it says that each comes first. */
  lemma {:induction false} SortFlips<T(!new)>(says: (T, T) -> bool, lt: (T, T) -> bool, xs: seq<T>, e: T)
    requires StrictWeak(lt) && Respects(says, lt) && Flips(says, lt, e)
    ensures Ties(lt, InsertionSort(says, xs), e) == Reverse(Ties(lt, xs, e))
  {
    if xs != [] {
      var n := |xs| - 1;
      var p, x := InsertionSort(says, xs[..n]), xs[n];
      SortFlips(says, lt, xs[..n], e);
      SortSorts(says, lt, xs[..n]);
      assert xs == xs[..n] + [x];
      hide Inserted, Ties, Flips, Keeps, StrictWeak, Respects, Sorted, Reverse;
      TiesOneMore(lt, xs[..n], x, e);
      if Tied(lt, x, e) {
        InsertedInFront(says, lt, p, x, e);
        ReverseMore(Ties(lt, xs[..n], e), x);
      } else {
        InsertedTies(says, lt, p, x, e);
        TiesOneMore(lt, p, x, e);
      }
    }
  }

  lemma {:induction false} ReverseMore<T>(s: seq<T>, x: T)
    ensures Reverse(s + [x]) == [x] + Reverse(s)
  {
  }
}
