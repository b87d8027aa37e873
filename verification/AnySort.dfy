/**
 Beyond insertion sort: every stable sort that only ever asks whether a later element comes before an
 earlier one does the same with a comparison that is no order.  Go's stable sort is one: it sorts blocks
 by insertion and merges neighbouring ones, comparing elements of the right one with those of the left.
 */
module AnySorts {
  import opened Basics
  import opened StableSorts
  import opened Reflection
  import opened SortSlices

  /** A sort of n elements by comparisons: what it asks next, given the answers so far, and where it ends. */
  datatype Sorting = Done(order: seq<int>) | Ask(later: int, earlier: int, yes: Sorting, no: Sorting)

  /** The order of the elements in which it ends, if `says` answers. */
  function Run(t: Sorting, says: (int, int) -> bool): seq<int> {
    match t
    case Done(order) => order
    case Ask(later, earlier, yes, no) => if says(later, earlier) then Run(yes, says) else Run(no, says)
  }

  /** It only asks whether a later element comes before an earlier one. */
  predicate Forward(t: Sorting, n: nat) {
    match t
    case Done(_) => true
    case Ask(later, earlier, yes, no) => 0 <= earlier < later < n && Forward(yes, n) && Forward(no, n)
  }

  /** The elements 0 to n - 1. */
  function Elements(n: nat): (r: seq<int>)
    ensures |r| == n && forall i :: 0 <= i < n ==> r[i] == i
  {
    if n == 0 then [] else Elements(n - 1) + [n - 1]
  }

  /** With a strict weak order it sorts stably. */
  ghost predicate SortsStably(t: Sorting, n: nat) {
    forall lt: (int, int) -> bool :: StrictWeak(lt) ==> StableSorted(lt, Elements(n), Run(t, lt))
  }

  // ----- The order in which it has to end

  /** What `says` says of the elements of xs, a later one first. */
  function Answers<T>(says: (T, T) -> bool, xs: seq<T>): (int, int) -> bool {
    (a: int, b: int) => 0 <= b < a < |xs| && says(xs[a], xs[b])
  }

  /** The order of elements that gives the same answers. */
  function Forced<T>(says: (T, T) -> bool, xs: seq<T>): (int, int) -> bool {
    (a: int, b: int) =>
      if 0 <= b < a < |xs| then says(xs[a], xs[b])
      else a < b && (0 <= a && b < |xs| ==> !says(xs[b], xs[a]))
  }

  lemma {:induction false} SameAnswers<T>(t: Sorting, says: (T, T) -> bool, xs: seq<T>)
    requires Forward(t, |xs|)
    ensures Run(t, Answers(says, xs)) == Run(t, Forced(says, xs))
  {
    match t
    case Done(_) =>
    case Ask(_, _, yes, no) =>
      SameAnswers(yes, says, xs);
      SameAnswers(no, says, xs);
  }

  /** The comparison respects an order, and of tied elements it always says the same. */
  ghost predicate Decided<T(!new)>(says: (T, T) -> bool, lt: (T, T) -> bool) {
    StrictWeak(lt) && Respects(says, lt) && forall e: T :: Keeps(says, lt, e) || Flips(says, lt, e)
  }

  lemma ForcedWeak<T(!new)>(says: (T, T) -> bool, lt: (T, T) -> bool, xs: seq<T>)
    requires Decided(says, lt)
    ensures StrictWeak(Forced(says, xs))
  {
    var f := Forced(says, xs);
    forall a: int, b: int, c: int | Use(a, b, c) ensures f(a, b) ==> !f(b, a) ensures f(a, c) ==> f(a, b) || f(b, c) {
      if f(a, c) && !f(a, b) && !f(b, c) && 0 <= a < |xs| && 0 <= b < |xs| && 0 <= c < |xs| && a != b && b != c {
        ForcedThree(says, lt, xs, a, b, c);
      }
    }
  }

  /** Elements in a circle would all be tied, and then they are ordered by their positions. */
  lemma ForcedThree<T(!new)>(says: (T, T) -> bool, lt: (T, T) -> bool, xs: seq<T>, a: int, b: int, c: int)
    requires Decided(says, lt) && 0 <= a < |xs| && 0 <= b < |xs| && 0 <= c < |xs| && a != b && b != c
    requires var f := Forced(says, xs); f(b, a) && f(c, b)
    ensures !Forced(says, xs)(a, c)
  {
    var x, y, z := xs[a], xs[b], xs[c];
    assert !lt(x, y) && !lt(y, z);
    Weak(lt, x, y, z);
    if !lt(z, x) {
      Weak(lt, z, x, y);
      Weak(lt, y, z, x);
      assert Tied(lt, y, x) && Tied(lt, z, x) && Tied(lt, x, x);
      assert Keeps(says, lt, x) || Flips(says, lt, x);
    }
  }

  /** The elements with these numbers. */
  function Picked<T>(xs: seq<T>, order: seq<int>): seq<T>
    requires forall i :: 0 <= i < |order| ==> 0 <= order[i] < |xs|
  {
    seq(|order|, i requires 0 <= i < |order| => xs[order[i]])
  }

  lemma PickedMore<T>(xs: seq<T>, p: seq<int>, i: nat)
    requires i < |xs| && forall k :: 0 <= k < |p| ==> 0 <= p[k] < |xs|
    ensures Picked(xs, p + [i]) == Picked(xs, p) + [xs[i]]
  {
  }

  lemma {:induction false} InsertedPicked<T>(says: (T, T) -> bool, xs: seq<T>, p: seq<int>, x: nat)
    requires x < |xs| && forall k :: 0 <= k < |p| ==> 0 <= p[k] < x
    ensures var r := Inserted(Forced(says, xs), p, x);
            && (forall k :: 0 <= k < |r| ==> 0 <= r[k] <= x)
            && Picked(xs, r) == Inserted(says, Picked(xs, p), xs[x])
  {
    var n := |p| - 1;
    if p != [] && says(xs[x], xs[p[n]]) {
      InsertedPicked(says, xs, p[..n], x);
      assert p == p[..n] + [p[n]];
      PickedMore(xs, p[..n], p[n]);
      PickedMore(xs, Inserted(Forced(says, xs), p[..n], x), p[n]);
      assert Picked(xs, p)[..n] == Picked(xs, p[..n]);
    } else {
      PickedMore(xs, p, x);
    }
  }

  lemma {:induction false} SortPicked<T>(says: (T, T) -> bool, xs: seq<T>, n: nat)
    requires n <= |xs|
    ensures var r := InsertionSort(Forced(says, xs), Elements(n));
            (forall k :: 0 <= k < |r| ==> 0 <= r[k] < n) && Picked(xs, r) == InsertionSort(says, xs[..n])
  {
    hide Inserted, InsertionSort, Forced;
    if n == 0 {
      SortNone(says);
      SortNone(Forced(says, xs));
      assert xs[..0] == [] && Picked(xs, []) == [];
    } else {
      hide Picked;
      var p := InsertionSort(Forced(says, xs), Elements(n - 1));
      SortPicked(says, xs, n - 1);
      assert xs[..n] == xs[..n - 1] + [xs[n - 1]];
      SortMore(says, xs[..n - 1], xs[n - 1]);
      SortMore(Forced(says, xs), Elements(n - 1), n - 1);
      InsertedPicked(says, xs, p, n - 1);
    }
  }

  lemma SortNone<T>(says: (T, T) -> bool)
    ensures InsertionSort(says, []) == []
  {
  }

  lemma {:induction false} SortMore<T>(says: (T, T) -> bool, p: seq<T>, x: T)
    ensures InsertionSort(says, p + [x]) == Inserted(says, InsertionSort(says, p), x)
  {
    assert (p + [x])[..|p|] == p;
  }

  lemma {:induction false} InsertionStable<T(!new)>(lt: (T, T) -> bool, xs: seq<T>)
    requires StrictWeak(lt)
    ensures StableSorted(lt, xs, InsertionSort(lt, xs))
  {
    forall x, y ensures lt(x, y) ==> !lt(y, x) { Weak(lt, x, y, x); }
    SortSorts(lt, lt, xs);
    forall e: T ensures Ties(lt, xs, e) == Ties(lt, InsertionSort(lt, xs), e) {
      forall x, y | Tied(lt, x, e) && Tied(lt, y, e) ensures !lt(x, y) {
        Weak(lt, x, e, y);
      }
      SortKeeps(lt, lt, xs, e);
    }
  }

  /** Whatever sort it is, it ends as an insertion sort does. */
  lemma {:induction false} AnySort<T(!new)>(t: Sorting, says: (T, T) -> bool, lt: (T, T) -> bool, xs: seq<T>)
    requires Forward(t, |xs|) && SortsStably(t, |xs|) && Decided(says, lt)
    ensures var r := Run(t, Answers(says, xs));
            (forall k :: 0 <= k < |r| ==> 0 <= r[k] < |xs|) && Picked(xs, r) == InsertionSort(says, xs)
  {
    var f := Forced(says, xs);
    SameAnswers(t, says, xs);
    ForcedWeak(says, lt, xs);
    assert StableSorted(f, Elements(|xs|), Run(t, f));
    InsertionStable(f, Elements(|xs|));
    StableSortUnique(f, Run(t, f), InsertionSort(f, Elements(|xs|)));
    SortPicked(says, xs, |xs|);
    assert xs[..|xs|] == xs;
  }

  // ----- There is such a sort

  /**
   Insertion sort as a sort by comparisons: element x has been moved in front of `back`, and is being
   compared with the end of `done`.
   */
  function Insertion(n: nat, done: seq<int>, back: seq<int>, x: nat): Sorting
    requires x < n
    decreases n - x, |done|
  {
    var placed := done + ([x] + back);
    var next := if x + 1 == n then Done(placed) else Insertion(n, placed, [], x + 1);
    if done == [] then next
    else Ask(x, done[|done| - 1], Insertion(n, done[..|done| - 1], [done[|done| - 1]] + back, x), next)
  }

  /** These are elements before x. */
  ghost predicate Earlier(s: seq<int>, x: nat) { forall k :: 0 <= k < |s| ==> 0 <= s[k] < x }

  lemma {:induction false} InsertionForward(n: nat, done: seq<int>, back: seq<int>, x: nat)
    requires x < n && Earlier(done, x) && Earlier(back, x)
    ensures Forward(Insertion(n, done, back, x), n)
    decreases n - x, |done|
  {
    if done != [] {
      InsertionForward(n, done[..|done| - 1], [done[|done| - 1]] + back, x);
    }
    if x + 1 < n {
      InsertionForward(n, done + ([x] + back), [], x + 1);
    }
  }

  /** What it has to end with is what remains to be inserted, and what is behind that. */
  ghost predicate OnTheWay(done: seq<int>, back: seq<int>, x: nat, says: (int, int) -> bool) {
    Inserted(says, done, x) + back == InsertionSort(says, Elements(x + 1))
  }

  lemma MovedOn(done: seq<int>, back: seq<int>, x: nat, says: (int, int) -> bool)
    requires OnTheWay(done, back, x, says) && done != [] && says(x, done[|done| - 1])
    ensures OnTheWay(done[..|done| - 1], [done[|done| - 1]] + back, x, says)
  {
    Assoc(Inserted(says, done[..|done| - 1], x), [done[|done| - 1]], back);
    hide InsertionSort, Elements;
  }

  lemma {:induction false} PlacedNext(done: seq<int>, back: seq<int>, x: nat, says: (int, int) -> bool)
    requires OnTheWay(done, back, x, says) && (done == [] || !says(x, done[|done| - 1]))
    ensures done + ([x] + back) == InsertionSort(says, Elements(x + 1))
    ensures OnTheWay(done + ([x] + back), [], x + 1, says)
  {
    Assoc(done, [x], back);
    assert Inserted(says, done, x) == done + [x];
    hide Inserted, InsertionSort;
    SortMore(says, Elements(x + 1), x + 1);
    assert Inserted(says, done + ([x] + back), x + 1) + [] == Inserted(says, done + ([x] + back), x + 1);
  }

  lemma {:induction false} InsertionRuns(n: nat, done: seq<int>, back: seq<int>, x: nat, says: (int, int) -> bool)
    requires x < n && OnTheWay(done, back, x, says)
    ensures Run(Insertion(n, done, back, x), says) == InsertionSort(says, Elements(n))
    decreases n - x, |done|
  {
    hide OnTheWay, InsertionSort, Elements;
    if done != [] && says(x, done[|done| - 1]) {
      MovedOn(done, back, x, says);
      InsertionRuns(n, done[..|done| - 1], [done[|done| - 1]] + back, x, says);
    } else {
      PlacedNext(done, back, x, says);
      if x + 1 < n {
        InsertionRuns(n, done + ([x] + back), [], x + 1, says);
      }
    }
  }

  /** So there is one for every number of elements. */
  function InsertionOf(n: nat): Sorting { if n == 0 then Done([]) else Insertion(n, [], [], 0) }

  lemma {:induction false} InsertionOfSorts(n: nat, says: (int, int) -> bool)
    ensures Run(InsertionOf(n), says) == InsertionSort(says, Elements(n))
  {
    if n > 0 {
      assert Elements(1)[..0] == [] && OnTheWay([], [], 0, says);
      InsertionRuns(n, [], [], 0, says);
    }
  }

  lemma {:induction false} InsertionIsOne(n: nat)
    ensures Forward(InsertionOf(n), n) && SortsStably(InsertionOf(n), n)
  {
    if n > 0 { InsertionForward(n, [], [], 0); }
    var t := InsertionOf(n);
    assert Forward(t, n);
    forall lt: (int, int) -> bool | StrictWeak(lt) ensures StableSorted(lt, Elements(n), Run(t, lt)) {
      InsertionOfSorts(n, lt);
      InsertionStable(lt, Elements(n));
    }
  }

  // ----- SortSlice

  lemma ClosureDecided<T(!new)>(c: Case, of: T -> Value, parts: seq<string>, reversed: bool)
    ensures Decided(Closure(c, of, parts, reversed), Order(c, of, parts, reversed))
  {
    var says, lt := Closure(c, of, parts, reversed), Order(c, of, parts, reversed);
    OrderIsWeak(c, of, parts, reversed);
    ClosureRespects(c, of, parts, reversed);
    forall e: T ensures Keeps(says, lt, e) || Flips(says, lt, e) {
      if reversed || !NilValue(of(e)) {
        ClosureKeeps(c, of, parts, reversed, e);
      } else {
        ClosureFlips(c, of, parts, e);
      }
    }
  }

  /**
   Any such sort, run with the comparison closure of `SortSlice`: the result is sorted, it is that of the
   insertion sort, and it is stable exactly when the order is reversed or the nil elements read the same
   backwards.
   */
  lemma {:induction false} AnySortSlice<T(!new)>(
    t: Sorting, c: Case, of: T -> Value, parts: seq<string>, reversed: bool, xs: seq<T>)
    requires Forward(t, |xs|) && SortsStably(t, |xs|)
    ensures var r := Run(t, Answers(Closure(c, of, parts, reversed), xs));
            && (forall k :: 0 <= k < |r| ==> 0 <= r[k] < |xs|)
            && Picked(xs, r) == InsertionSort(Closure(c, of, parts, reversed), xs)
            && Sorted(Order(c, of, parts, reversed), Picked(xs, r)) && multiset(Picked(xs, r)) == multiset(xs)
            && (StableSorted(Order(c, of, parts, reversed), xs, Picked(xs, r))
                <==> reversed || Nils(of, xs) == Reverse(Nils(of, xs)))
  {
    hide Forward, SortsStably, Sorted, StableSorted, Nils, Reverse, InsertionSort, Picked, Decided, Order;
    ClosureDecided(c, of, parts, reversed);
    AnySort(t, Closure(c, of, parts, reversed), Order(c, of, parts, reversed), xs);
    ClosureSorts(c, of, parts, reversed, xs);
    ClosureStableIff(c, of, parts, reversed, xs);
  }
}
