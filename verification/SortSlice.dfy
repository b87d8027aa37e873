/** info-v4-resources.go: `SortSlice` sorts a slice in place by a dotted field path. */
module SortSlices {
  import opened Basics
  import opened StableSorts
  import opened Reflection
  import Strings

  // ----- The comparison function of the sort

  predicate NilValue(v: Value) { DereferenceValue(v).1 }

  /** Go can compare the fields of these two elements. */
  predicate ComparableElements(c: Case, parts: seq<string>, v: Value, w: Value) {
    !NilValue(v) && !NilValue(w) ==>
      Comparable(Resolve(c, DereferenceValue(v).0, parts), Resolve(c, DereferenceValue(w).0, parts))
  }

  /** `CompareFields` says which of the two keys comes first, and that it cannot say only of tied keys. */
  lemma CompareKeys(c: Case, a: Value, b: Value)
    requires Comparable(a, b)
    ensures Comparable(b, a)
    ensures var (less, ok) := CompareFields(c, a, b);
            && less == KeyBefore(FieldKey(c, a), FieldKey(c, b))
            && (!ok ==> !less && !KeyBefore(FieldKey(c, b), FieldKey(c, a)))
  {
  }

  lemma NilElements(v: Key)
    ensures KeyBefore(NilElement, v) <==> !v.NilElement?
    ensures !KeyBefore(v, NilElement)
  {
  }

  /** The comparison closure of `SortSlice`, for elements i and j. */
  method Less(c: Case, parts: seq<string>, reversed: bool, i: Value, j: Value) returns (r: bool)
    requires ComparableElements(c, parts, i, j)
    ensures r == Says(c, parts, reversed, i, j)
  {
    hide Resolve, CompareFields, Comparable, KeyBefore, FieldKey;
    var (valI, valINil) := DereferenceValue(i);
    var (valJ, valJNil) := DereferenceValue(j);
    NilElements(KeyOf(c, parts, i));
    NilElements(KeyOf(c, parts, j));
    if valINil {
      KeyNil(c, parts, j);
      return !reversed;
    }
    if valJNil {
      KeyNil(c, parts, i);
      return reversed;
    }
    var fieldI := ResolveFieldPath(c, valI, parts);
    var fieldJ := ResolveFieldPath(c, valJ, parts);
    CompareKeys(c, fieldI, fieldJ);
    CompareKeys(c, fieldJ, fieldI);
    var (lessThan, ok) := CompareFields(c, fieldI, fieldJ);
    if !ok {
      return false;
    }
    if reversed {
      var (greaterThan, _) := CompareFields(c, fieldJ, fieldI);
      return greaterThan;
    }
    return lessThan;
  }

  lemma KeyNil(c: Case, parts: seq<string>, v: Value)
    ensures KeyOf(c, parts, v).NilElement? <==> NilValue(v)
  {
    hide Resolve;
  }

  /** What that closure computes: the order, except that a nil element may come out less than another one. */
  predicate Says(c: Case, parts: seq<string>, reversed: bool, v: Value, w: Value) {
    if NilValue(v) && NilValue(w) then !reversed
    else if reversed then KeyBefore(KeyOf(c, parts, w), KeyOf(c, parts, v))
    else KeyBefore(KeyOf(c, parts, v), KeyOf(c, parts, w))
  }

  /** At most one element is nil, or the order is reversed. */
  predicate Consistent<T>(of: T -> Value, reversed: bool, xs: seq<T>) {
    reversed || forall i, j :: 0 <= i < j < |xs| ==> !NilValue(of(xs[i])) || !NilValue(of(xs[j]))
  }

  /** The closure compares the elements of a slice as the order does exactly when the slice is consistent. */
  lemma SaysOrder<T>(c: Case, of: T -> Value, parts: seq<string>, reversed: bool, xs: seq<T>)
    ensures Consistent(of, reversed, xs) <==>
      forall i, j :: 0 <= i < |xs| && 0 <= j < |xs| && i != j ==>
        Says(c, parts, reversed, of(xs[i]), of(xs[j])) == Order(c, of, parts, reversed)(xs[i], xs[j])
  {
    if !Consistent(of, reversed, xs) {
      var i, j :| 0 <= i < j < |xs| && NilValue(of(xs[i])) && NilValue(of(xs[j]));
      assert Says(c, parts, reversed, of(xs[i]), of(xs[j])) != Order(c, of, parts, reversed)(xs[i], xs[j]);
    }
  }

  // ----- The sort

  predicate AllComparable<T>(c: Case, of: T -> Value, parts: seq<string>, xs: seq<T>) {
    forall i, j :: 0 <= i < |xs| && 0 <= j < |xs| ==> ComparableElements(c, parts, of(xs[i]), of(xs[j]))
  }

  /** The comparison closure as a function of two elements. */
  function Closure<T>(c: Case, of: T -> Value, parts: seq<string>, reversed: bool): (T, T) -> bool {
    (x: T, y: T) => Says(c, parts, reversed, of(x), of(y))
  }

  /** The nil elements, in order. */
  function Nils<T>(of: T -> Value, xs: seq<T>): seq<T> {
    if xs == [] then [] else (if NilValue(of(xs[0])) then [xs[0]] else []) + Nils(of, xs[1..])
  }

  /**
   An insertion sort of the slice by that field.  The result is always sorted; it is the stable sort
   exactly when the order is reversed or the nil elements read the same backwards.
   */
  method SortSlice<T(!new)>(c: Case, of: T -> Value, slice: array<T>, field: string, reversed: bool)
    requires AllComparable(c, of, Strings.Split(field, '.'), slice[..])
    modifies slice
    ensures field == "" ==> slice[..] == old(slice[..])
    ensures field != "" ==>
      var (parts, before) := (Strings.Split(field, '.'), old(slice[..]));
      && slice[..] == InsertionSort(Closure(c, of, parts, reversed), before)
      && multiset(slice[..]) == multiset(before) && Sorted(Order(c, of, parts, reversed), slice[..])
      && (StableSorted(Order(c, of, parts, reversed), before, slice[..])
          <==> reversed || Nils(of, before) == Reverse(Nils(of, before)))
  {
    if field == "" {
      return;
    }
    var parts := Strings.Split(field, '.');
    ghost var says, before := Closure(c, of, parts, reversed), slice[..];
    hide Order, Says, ComparableElements, AllComparable, Inserted, Sorted, StableSorted, Closure, Nils, Reverse;
    assert slice[..0] == [];
    for n := 0 to slice.Length
      invariant slice[..n] == InsertionSort(says, before[..n]) && slice[n..] == before[n..]
      invariant AllComparable(c, of, parts, slice[..])
    {
      Insert(c, of, slice, parts, reversed, n);
      NextElement(before, slice[..], n);
    }
    assert before[..|before|] == before && slice[..slice.Length] == slice[..];
    ClosureSorts(c, of, parts, reversed, before);
    ClosureStableIff(c, of, parts, reversed, before);
  }

  lemma NextElement<T>(before: seq<T>, xs: seq<T>, n: nat)
    requires n < |before| == |xs| && xs[n + 1..] == before[n + 1..]
    ensures before[..n + 1][..n] == before[..n] && before[..n + 1][n] == before[n]
    ensures before[n..][0] == before[n] && before[n..][1..] == before[n + 1..]
  {
  }

  /** One round: the element at n is moved forward into its place. */
  method Insert<T(!new)>(c: Case, of: T -> Value, slice: array<T>, parts: seq<string>, reversed: bool, n: nat)
    requires n < slice.Length && AllComparable(c, of, parts, slice[..])
    modifies slice
    ensures AllComparable(c, of, parts, slice[..])
    ensures slice[..n + 1] == Inserted(Closure(c, of, parts, reversed), old(slice[..n]), old(slice[n]))
    ensures slice[n + 1..] == old(slice[n + 1..])
  {
    hide Says, ComparableElements, Inserted, AllComparable;
    ghost var says, p, x := Closure(c, of, parts, reversed), slice[..n], slice[n];
    ghost var goal := Inserted(says, p, x);
    assert goal + slice[n + 1..] == goal + slice[n + 1..];
    var m := n;
    while m > 0
      invariant 0 <= m <= n && AllComparable(c, of, parts, slice[..])
      invariant slice[m] == x && slice[n + 1..] == old(slice[n + 1..])
      invariant goal == Inserted(says, slice[..m], x) + slice[m + 1..n + 1]
    {
      ghost var xs := slice[..];
      ComparableAt(c, of, parts, xs, m);
      InsertedStep(says, xs, m, n);
      var less := Less(c, parts, reversed, of(slice[m]), of(slice[m - 1]));
      if !less {
        break;
      }
      slice[m], slice[m - 1] := slice[m - 1], slice[m];
      assert slice[..] == xs[m := xs[m - 1]][m - 1 := xs[m]];
      SwappedComparable(c, of, parts, xs, m);
      m := m - 1;
    }
    InsertedHere(says, slice[..], m, n);
  }

  lemma ComparableAt<T>(c: Case, of: T -> Value, parts: seq<string>, xs: seq<T>, m: nat)
    requires 0 < m < |xs| && AllComparable(c, of, parts, xs)
    ensures ComparableElements(c, parts, of(xs[m]), of(xs[m - 1]))
  {
  }

  lemma SwappedComparable<T>(c: Case, of: T -> Value, parts: seq<string>, xs: seq<T>, m: nat)
    requires 0 < m < |xs| && AllComparable(c, of, parts, xs)
    ensures AllComparable(c, of, parts, xs[m := xs[m - 1]][m - 1 := xs[m]])
  {
  }

  /** The element at m either stays behind its predecessor or goes on in front of it. */
  lemma InsertedStep<T>(says: (T, T) -> bool, xs: seq<T>, m: nat, n: nat)
    requires 0 < m <= n < |xs|
    ensures var (x, goal) := (xs[m], Inserted(says, xs[..m], xs[m]) + xs[m + 1..n + 1]);
            if says(x, xs[m - 1]) then
              var ys := xs[m := xs[m - 1]][m - 1 := x];
              goal == Inserted(says, ys[..m - 1], x) + ys[m..n + 1]
            else goal == xs[..n + 1]
  {
    assert xs[..m][..m - 1] == xs[..m - 1];
    if says(xs[m], xs[m - 1]) {
      var ys := xs[m := xs[m - 1]][m - 1 := xs[m]];
      assert ys[..m - 1] == xs[..m - 1] && ys[m..n + 1] == [xs[m - 1]] + xs[m + 1..n + 1];
    }
  }

  lemma InsertedHere<T>(says: (T, T) -> bool, xs: seq<T>, m: nat, n: nat)
    requires m <= n < |xs| && (m > 0 ==> !says(xs[m], xs[m - 1]))
    ensures Inserted(says, xs[..m], xs[m]) + xs[m + 1..n + 1] == xs[..n + 1]
  {
  }

  // ----- What the sort promises

  lemma ClosureRespects<T(!new)>(c: Case, of: T -> Value, parts: seq<string>, reversed: bool)
    ensures Respects(Closure(c, of, parts, reversed), Order(c, of, parts, reversed))
  {
    var says, lt := Closure(c, of, parts, reversed), Order(c, of, parts, reversed);
    forall x, y ensures if says(x, y) then !lt(y, x) else !lt(x, y) {
      var a, b := KeyOf(c, parts, of(x)), KeyOf(c, parts, of(y));
      KeyOrder(a, b, a);
      KeyOrder(b, a, b);
      KeyNil(c, parts, of(x));
      KeyNil(c, parts, of(y));
      hide KeyBefore, KeyOf, NilValue;
      NilElements(a);
      NilElements(b);
    }
  }

  /** Nil first (or last, if reversed), then by key: for every slice, however many elements are nil. */
  lemma {:induction false} ClosureSorts<T(!new)>(
      c: Case, of: T -> Value, parts: seq<string>, reversed: bool, xs: seq<T>)
    ensures var r := InsertionSort(Closure(c, of, parts, reversed), xs);
            Sorted(Order(c, of, parts, reversed), r) && multiset(r) == multiset(xs)
  {
    OrderIsWeak(c, of, parts, reversed);
    ClosureRespects(c, of, parts, reversed);
    SortSorts(Closure(c, of, parts, reversed), Order(c, of, parts, reversed), xs);
  }

  lemma TiedNil<T>(c: Case, of: T -> Value, parts: seq<string>, reversed: bool, x: T, e: T)
    ensures var lt := Order(c, of, parts, reversed);
            && (Tied(lt, x, e) ==> (NilValue(of(x)) <==> NilValue(of(e))))
            && (NilValue(of(x)) && NilValue(of(e)) ==> Tied(lt, x, e))
  {
    var a, b := KeyOf(c, parts, of(x)), KeyOf(c, parts, of(e));
    KeyNil(c, parts, of(x));
    KeyNil(c, parts, of(e));
    NilElements(a);
    NilElements(b);
    hide KeyBefore, KeyOf, NilValue;
  }

  /** Elements that are not nil, and all of them if reversed, keep their order among themselves. */
  lemma ClosureKeeps<T(!new)>(c: Case, of: T -> Value, parts: seq<string>, reversed: bool, e: T)
    requires reversed || !NilValue(of(e))
    ensures Keeps(Closure(c, of, parts, reversed), Order(c, of, parts, reversed), e)
  {
    var says, lt := Closure(c, of, parts, reversed), Order(c, of, parts, reversed);
    OrderIsWeak(c, of, parts, reversed);
    forall x, y | Tied(lt, x, e) && Tied(lt, y, e) ensures !says(x, y) {
      TiedNil(c, of, parts, reversed, x, e);
      TiedNil(c, of, parts, reversed, y, e);
      hide KeyBefore, KeyOf, NilValue;
      Weak(lt, x, e, y);
      assert !lt(x, y);
    }
  }

  /** Without reversal each nil element is said to come before every other. */
  lemma ClosureFlips<T(!new)>(c: Case, of: T -> Value, parts: seq<string>, e: T)
    requires NilValue(of(e))
    ensures Flips(Closure(c, of, parts, false), Order(c, of, parts, false), e)
  {
    var says, lt := Closure(c, of, parts, false), Order(c, of, parts, false);
    forall x, y | Tied(lt, x, e) && Tied(lt, y, e) ensures says(x, y) {
      TiedNil(c, of, parts, false, x, e);
      TiedNil(c, of, parts, false, y, e);
    }
  }

  lemma {:induction false} NilTies<T>(c: Case, of: T -> Value, parts: seq<string>, reversed: bool, xs: seq<T>, e: T)
    requires NilValue(of(e))
    ensures Ties(Order(c, of, parts, reversed), xs, e) == Nils(of, xs)
  {
    hide Order, NilValue, Tied;
    if xs != [] {
      TiedNil(c, of, parts, reversed, xs[0], e);
      NilTies(c, of, parts, reversed, xs[1..], e);
    }
  }

  lemma {:induction false} NilsAre<T>(of: T -> Value, xs: seq<T>)
    ensures (forall x <- Nils(of, xs) :: x in xs && NilValue(of(x)))
  {
    if xs != [] {
      NilsAre(of, xs[1..]);
    }
  }

  /** Exactly when the sort is stable: reversed, or the nil elements read the same backwards. */
  lemma {:induction false} ClosureStableIff<T(!new)>(
      c: Case, of: T -> Value, parts: seq<string>, reversed: bool, xs: seq<T>)
    ensures StableSorted(Order(c, of, parts, reversed), xs, InsertionSort(Closure(c, of, parts, reversed), xs))
        <==> reversed || Nils(of, xs) == Reverse(Nils(of, xs))
  {
    var says, lt := Closure(c, of, parts, reversed), Order(c, of, parts, reversed);
    var r := InsertionSort(says, xs);
    OrderIsWeak(c, of, parts, reversed);
    ClosureRespects(c, of, parts, reversed);
    ClosureSorts(c, of, parts, reversed, xs);
    hide InsertionSort, Order, Says, NilValue, Respects, StrictWeak, Keeps, Flips, Sorted, Ties, Reverse, Nils, Closure;
    forall e: T ensures
      if reversed || !NilValue(of(e)) then Ties(lt, r, e) == Ties(lt, xs, e)
      else Ties(lt, r, e) == Reverse(Nils(of, xs)) && Ties(lt, xs, e) == Nils(of, xs)
    {
      if reversed || !NilValue(of(e)) {
        ClosureKeeps(c, of, parts, reversed, e);
        SortKeeps(says, lt, xs, e);
      } else {
        ClosureFlips(c, of, parts, e);
        SortFlips(says, lt, xs, e);
        NilTies(c, of, parts, reversed, xs, e);
      }
    }
    if !reversed && Nils(of, xs) != [] {
      var e := Nils(of, xs)[0];
      NilsAre(of, xs);
      assert NilValue(of(e));
      assert SameTies(lt, xs, r) ==> Ties(lt, xs, e) == Ties(lt, r, e);
    } else {
      ReverseNothing<T>();
    }
  }

  lemma ReverseNothing<T>()
    ensures Reverse<T>([]) == []
  {
  }

  /** The result of a reversed sort is that of sorting the reversed slice, reversed. */
  lemma {:induction false} ReversedSortSlice<T(!new)>(
      c: Case, of: T -> Value, parts: seq<string>, xs: seq<T>, ys: seq<T>, zs: seq<T>)
    requires StableSorted(Order(c, of, parts, true), xs, ys)
    requires StableSorted(Order(c, of, parts, false), Reverse(xs), zs)
    ensures ys == Reverse(zs)
  {
    var lt, gt := Order(c, of, parts, false), Order(c, of, parts, true);
    OrderIsWeak(c, of, parts, true);
    ReversedSort(lt, gt, xs, zs);
    hide Order;
    StableSortUnique(gt, ys, Reverse(zs));
  }

  /** Nil elements that are all equal, as nil pointers are, read the same backwards. */
  lemma {:induction false} EqualNils<T>(of: T -> Value, xs: seq<T>)
    requires forall x <- xs, y <- xs :: NilValue(of(x)) && NilValue(of(y)) ==> x == y
    ensures Nils(of, xs) == Reverse(Nils(of, xs))
  {
    hide Nils, Reverse, NilValue;
    NilsAre(of, xs);
    var n, r := Nils(of, xs), Reverse(Nils(of, xs));
    forall i | 0 <= i < |n| ensures n[i] == r[i] {
      var j := |n| - 1 - i;
      assert n[i] in n && n[j] in n && r[i] == n[j];
    }
  }

  lemma {:induction false} NilsAppend<T>(of: T -> Value, xs: seq<T>, ys: seq<T>)
    ensures Nils(of, xs + ys) == Nils(of, xs) + Nils(of, ys)
  {
    hide NilValue;
    if xs == [] {
      assert xs + ys == ys;
    } else {
      assert (xs + ys)[1..] == xs[1..] + ys && (xs + ys)[0] == xs[0];
      NilsAppend(of, xs[1..], ys);
      Assoc(if NilValue(of(xs[0])) then [xs[0]] else [], Nils(of, xs[1..]), Nils(of, ys));
    }
  }

  lemma {:induction false} ReverseCons<T>(x: T, s: seq<T>)
    ensures Reverse([x] + s) == Reverse(s) + [x]
  {
    assert ([x] + s)[1..] == s;
  }

  lemma NilsOne<T>(of: T -> Value, x: T)
    ensures Nils(of, [x]) == if NilValue(of(x)) then [x] else []
  {
    assert [x][1..] == [];
  }

  lemma {:induction false} NilsReverse<T>(of: T -> Value, xs: seq<T>)
    ensures Nils(of, Reverse(xs)) == Reverse(Nils(of, xs))
  {
    if xs != [] {
      hide NilValue;
      var x, rest, nils := xs[0], xs[1..], Nils(of, xs[1..]);
      assert xs == [x] + rest;
      assert Nils(of, xs) == if NilValue(of(x)) then [x] + nils else nils;
      hide Nils, Reverse;
      NilsReverse(of, rest);
      NilsOne(of, x);
      NilsAppend(of, Reverse(rest), [x]);
      ReverseCons(x, rest);
      ReverseCons(x, nils);
    }
  }

  /** What the sort does to the nil elements. */
  lemma {:induction false} SortedNils<T(!new)>(c: Case, of: T -> Value, parts: seq<string>, reversed: bool, xs: seq<T>)
    ensures var r := InsertionSort(Closure(c, of, parts, reversed), xs);
            Nils(of, r) == if reversed then Nils(of, xs) else Reverse(Nils(of, xs))
  {
    var says, lt := Closure(c, of, parts, reversed), Order(c, of, parts, reversed);
    var r := InsertionSort(says, xs);
    OrderIsWeak(c, of, parts, reversed);
    ClosureRespects(c, of, parts, reversed);
    SortSorts(says, lt, xs);
    NilsAre(of, xs);
    NilsAre(of, r);
    hide InsertionSort, Order, Says, NilValue, Respects, StrictWeak, Keeps, Flips, Sorted, Ties, Reverse, Nils, Closure;
    if Nils(of, xs) == [] && Nils(of, r) == [] {
      ReverseNothing<T>();
    } else {
      var e := if Nils(of, xs) != [] then Nils(of, xs)[0] else Nils(of, r)[0];
      assert NilValue(of(e)) by {
        assert Nils(of, xs) != [] ==> Nils(of, xs)[0] in Nils(of, xs);
        assert Nils(of, r) != [] ==> Nils(of, r)[0] in Nils(of, r);
      }
      NilTies(c, of, parts, reversed, xs, e);
      NilTies(c, of, parts, reversed, r, e);
      if reversed {
        ClosureKeeps(c, of, parts, reversed, e);
        SortKeeps(says, lt, xs, e);
      } else {
        ClosureFlips(c, of, parts, e);
        SortFlips(says, lt, xs, e);
      }
    }
  }

  /** A reversed sort is a sort of the reversed slice, reversed, under the same exact condition. */
  lemma {:induction false} ReversalIff<T(!new)>(c: Case, of: T -> Value, parts: seq<string>, xs: seq<T>)
    ensures InsertionSort(Closure(c, of, parts, true), xs)
         == Reverse(InsertionSort(Closure(c, of, parts, false), Reverse(xs)))
        <==> Nils(of, xs) == Reverse(Nils(of, xs))
  {
    var ys := InsertionSort(Closure(c, of, parts, true), xs);
    var zs := InsertionSort(Closure(c, of, parts, false), Reverse(xs));
    NilsReverse(of, xs);
    NilsReverse(of, zs);
    SortedNils(c, of, parts, true, xs);
    SortedNils(c, of, parts, false, Reverse(xs));
    ReverseTwice(Nils(of, xs));
    ClosureStableIff(c, of, parts, true, xs);
    ClosureStableIff(c, of, parts, false, Reverse(xs));
    hide InsertionSort, Closure, Order, Nils, Reverse, StableSorted;
    if Nils(of, xs) == Reverse(Nils(of, xs)) {
      ReversedSortSlice(c, of, parts, xs, ys, zs);
    }
  }
}
