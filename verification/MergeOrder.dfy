/**
 Exactly when the order of merges does not matter.  `Segmented` asks its users to start every series at
 a multiple of its interval; among such series one common interval is sufficient and necessary.
 */
module MergeOrder {
  import opened Basics
  import opened Folds
  import opened Permutations
  import opened Segments
  import opened SegmentLaws

  /** The series is empty, or starts at a multiple of its own interval, counted from this phase. */
  ghost predicate Aligned<T, C>(v: Measure<T, C>, phase: int, s: Series<T>) {
    AllOk(v, s.segs) && (s.segs != [] ==> s.interval > 0 && (s.first - phase) % s.Step() == 0)
  }

  /** All series that carry data have the same interval. */
  ghost predicate OneResolution<T>(all: seq<Series<T>>) {
    forall s <- all, t <- all :: s.segs != [] && t.segs != [] ==> s.interval == t.interval
  }

  /** The interval of the first series that carries data; 0 if none does. */
  function FirstInterval<T>(all: seq<Series<T>>): int {
    if all == [] then 0 else if all[0].segs != [] then all[0].interval else FirstInterval(all[1..])
  }

  lemma {:induction false} FirstIntervalAppend<T>(xs: seq<Series<T>>, ys: seq<Series<T>>)
    requires forall s <- xs :: s.segs != [] ==> s.interval > 0
    ensures FirstInterval(xs + ys) == if FirstInterval(xs) > 0 then FirstInterval(xs) else FirstInterval(ys)
    ensures FirstInterval(xs) >= 0
  {
    if xs == [] {
      assert xs + ys == ys;
    } else {
      assert (xs + ys)[1..] == xs[1..] + ys;
      FirstIntervalAppend(xs[1..], ys);
    }
  }

  /** A tree of merges carries data if some leaf does, and has the interval of the first that does. */
  lemma {:induction false} TreeInterval<T>(e: Element<T>, t: Tree<Series<T>>)
    requires forall s <- t.Leaves() :: s.segs != [] ==> s.interval > 0
    ensures var r, first := t.Eval(Joiner(e)), FirstInterval(t.Leaves());
            first >= 0 && (r.segs != [] <==> first > 0) && (r.segs != [] ==> r.interval == first)
  {
    match t
    case Leaf(s) => assert s in t.Leaves() && t.Leaves()[1..] == [];
    case Node(l, r) =>
      assert forall s <- l.Leaves() :: s in t.Leaves();
      assert forall s <- r.Leaves() :: s in t.Leaves();
      TreeInterval(e, l);
      TreeInterval(e, r);
      FirstIntervalAppend(l.Leaves(), r.Leaves());
  }

  /** One merge after the other. */
  function Chain<T>(xs: seq<T>): (t: Tree<T>)
    requires xs != []
    ensures t.Leaves() == xs
  {
    if |xs| == 1 then Leaf(xs[0])
    else
      var n := |xs| - 1;
      assert xs == xs[..n] + [xs[n]];
      Node(Chain(xs[..n]), Leaf(xs[n]))
  }

  /** Every tree of merges of these series gives what this one gives. */
  ghost predicate OrderIrrelevant<T(!new), C(!new)>(e: Element<T>, v: Measure<T, C>, t: Tree<Series<T>>) {
    forall u: Tree<Series<T>> :: multiset(u.Leaves()) == multiset(t.Leaves()) ==>
      Agree(v, t.Eval(Joiner(e)), u.Eval(Joiner(e)))
  }

  lemma {:induction false} TreesDisagree<T(!new), C(!new)>(
      e: Element<T>, v: Measure<T, C>, t: Tree<Series<T>>, u: Tree<Series<T>>)
    requires forall s <- t.Leaves() :: s.segs != [] ==> s.interval > 0
    requires multiset(u.Leaves()) == multiset(t.Leaves())
    requires 0 < FirstInterval(u.Leaves()) != FirstInterval(t.Leaves())
    ensures !OrderIrrelevant(e, v, t)
  {
    assert forall s <- u.Leaves() :: s in multiset(t.Leaves());
    TreeInterval(e, t);
    TreeInterval(e, u);
    hide Merged, Joiner, Tree.Leaves, Tree.Eval, FirstInterval;
    if Agree(v, t.Eval(Joiner(e)), u.Eval(Joiner(e))) {
      Symmetric(v, t.Eval(Joiner(e)), u.Eval(Joiner(e)));
    }
  }

  /** Two series of different intervals: putting the other one first changes the result. */
  lemma {:induction false} OtherIntervalShows<T(!new), C(!new)>(
      e: Element<T>, v: Measure<T, C>, t: Tree<Series<T>>, i: nat)
    requires forall s <- t.Leaves() :: s.segs != [] ==> s.interval > 0
    requires i < |t.Leaves()| && t.Leaves()[i].segs != [] && t.Leaves()[i].interval != FirstInterval(t.Leaves())
    ensures !OrderIrrelevant(e, v, t)
  {
    var xs := t.Leaves();
    var ys := [xs[i]] + WithoutAt(xs, i);
    MovedFront(xs, i);
    assert xs[i] in xs && FirstInterval(ys) == xs[i].interval;
    hide FirstInterval, OrderIrrelevant, Chain, Tree.Leaves;
    TreesDisagree(e, v, t, Chain(ys));
  }

  lemma Symmetric<T, C>(v: Measure<T, C>, r: Series<T>, s: Series<T>)
    requires Agree(v, r, s) && s.segs != []
    ensures r.interval == s.interval
  {
  }

  /**
   Among aligned series, some of them possibly empty, order and tree shape are irrelevant if and only if
   all series that carry data have one interval.
   */
  lemma {:induction false} OrderIrrelevantIff<T(!new), C(!new)>(
      e: Element<T>, v: Measure<T, C>, phase: int, t: Tree<Series<T>>)
    requires Measures(e, v) && forall s <- t.Leaves() :: Aligned(v, phase, s)
    ensures OrderIrrelevant(e, v, t) <==> OneResolution(t.Leaves())
  {
    hide OrderIrrelevant, OneResolution, Aligned;
    if OneResolution(t.Leaves()) {
      OneResolutionSuffices(e, v, phase, t);
    } else {
      OneResolutionNeeded(e, v, phase, t);
    }
  }

  lemma {:induction false} OneResolutionSuffices<T(!new), C(!new)>(
      e: Element<T>, v: Measure<T, C>, phase: int, t: Tree<Series<T>>)
    requires Measures(e, v) && OneResolution(t.Leaves()) && forall s <- t.Leaves() :: Aligned(v, phase, s)
    ensures OrderIrrelevant(e, v, t)
  {
    FirstIsOne(t.Leaves());
    assert forall s <- t.Leaves() :: OnGrid(v, FirstInterval(t.Leaves()), phase, s);
    hide OneResolution, Aligned, Tree.Eval, Tree.Leaves, FirstInterval, OnGrid, Agree, Measures;
    forall u: Tree<Series<T>> | multiset(u.Leaves()) == multiset(t.Leaves())
      ensures Agree(v, t.Eval(Joiner(e)), u.Eval(Joiner(e)))
    {
      MergeOrderIrrelevant(e, v, FirstInterval(t.Leaves()), phase, t, u);
    }
  }

  lemma {:induction false} OneResolutionNeeded<T(!new), C(!new)>(
      e: Element<T>, v: Measure<T, C>, phase: int, t: Tree<Series<T>>)
    requires !OneResolution(t.Leaves()) && forall s <- t.Leaves() :: Aligned(v, phase, s)
    ensures !OrderIrrelevant(e, v, t)
  {
    var xs := t.Leaves();
    hide OrderIrrelevant, Tree.Leaves, FirstInterval;
    var s, q :| s in xs && q in xs && s.segs != [] && q.segs != [] && s.interval != q.interval;
    var odd := if s.interval != FirstInterval(xs) then s else q;
    var i :| 0 <= i < |xs| && xs[i] == odd;
    OtherIntervalShows(e, v, t, i);
  }

  lemma {:induction false} FirstIsOne<T>(all: seq<Series<T>>)
    requires OneResolution(all)
    ensures forall s <- all :: s.segs != [] ==> s.interval == FirstInterval(all)
  {
    if all != [] {
      assert all == [all[0]] + all[1..];
      FirstIsOne(all[1..]);
    }
  }

  /** Two series that carry data merge alike both ways, aligned or not, if and only if their intervals agree. */
  lemma MergeCommutesIff<T(!new), C(!new)>(e: Element<T>, v: Measure<T, C>, a: Series<T>, b: Series<T>)
    requires Measures(e, v) && AllOk(v, a.segs) && AllOk(v, b.segs)
    requires a.segs != [] && b.segs != [] && a.interval > 0 && b.interval > 0
    ensures Agree(v, Merged(e, a, b), Merged(e, b, a)) <==> a.interval == b.interval
  {
    if a.interval == b.interval {
      var r, s, start := Merged(e, a, b), Merged(e, b, a), Min(a.first, b.first);
      var i, j := Offset(a, start), Offset(b, start);
      forall k | 0 <= k < |r.segs| ensures v.of(r.segs[k]) == v.of(s.segs[k]) {
        SlotMeasure(e, v, a.segs, i, b.segs, j, k);
        SlotMeasure(e, v, b.segs, j, a.segs, i, k);
        Laws(v.zero, v.plus, v.of(Lookup(e.zero, a.segs, k - i)), v.of(Lookup(e.zero, b.segs, k - j)), v.zero);
      }
    }
  }

  /** Two one-second series that start i and j whole seconds after the earlier one, slot by slot. */
  lemma MergedSeconds(e: Element<int>, a: Series<int>, b: Series<int>, start: int, i: nat, j: nat, n: nat)
    requires a.segs != [] && b.segs != [] && a.interval == b.interval == 1 && start == Min(a.first, b.first)
    requires 0 <= a.first - start - i * SECOND < SECOND && 0 <= b.first - start - j * SECOND < SECOND
    requires n == Max(i + |a.segs|, j + |b.segs|)
    ensures Merged(e, a, b) == Series(1, start, seq(n, k => Slot(e, a.segs, i, b.segs, j, k)))
  {
    DivUnique(a.first - start, SECOND, i, a.first - start - i * SECOND);
    DivUnique(b.first - start, SECOND, j, b.first - start - j * SECOND);
  }

  /** Without alignment one interval is not enough: three series that start at 1.2, 0.5 and 0 seconds. */
  lemma UnalignedOrderShows()
    ensures var e := Element(0, (x: int, y: int) => x + y);
            var a, b, c := Series(1, 1_200_000_000, [1]), Series(1, 500_000_000, [10]), Series(1, 0, [100]);
            && Merged(e, Merged(e, a, b), c).segs == [111]
            && Merged(e, Merged(e, a, c), b).segs == [110, 1]
  {
    var e := Element(0, (x: int, y: int) => x + y);
    var a, b, c := Series(1, 1_200_000_000, [1]), Series(1, 500_000_000, [10]), Series(1, 0, [100]);
    hide Merged;
    MergedSeconds(e, a, b, 500_000_000, 0, 0, 1);
    assert Merged(e, a, b).segs == [11];
    MergedSeconds(e, Series(1, 500_000_000, [11]), c, 0, 0, 0, 1);
    MergedSeconds(e, a, c, 0, 1, 0, 2);
    assert Merged(e, a, c).segs == [100, 1];
    MergedSeconds(e, Series(1, 0, [100, 1]), b, 0, 0, 0, 2);
  }

  // ----- What a tree of merges keeps

  /** Taking in the series ys behind the series xs loses nothing: their intervals agree, or one has no data. */
  predicate Meets<T>(xs: seq<Series<T>>, ys: seq<Series<T>>) {
    FirstInterval(xs) == 0 || FirstInterval(ys) == 0 || FirstInterval(xs) == FirstInterval(ys)
  }

  /** The leaves whose data are in the result: a subtree of another interval than what precedes it is lost whole. */
  function Surviving<T>(t: Tree<Series<T>>): seq<Series<T>> {
    match t
    case Leaf(s) => if s.segs == [] then [] else [s]
    case Node(l, r) => Surviving(l) + if Meets(l.Leaves(), r.Leaves()) then Surviving(r) else []
  }

  /** The series of this interval that carry data. */
  function OfInterval<T>(all: seq<Series<T>>, interval: int): seq<Series<T>> {
    if all == [] then []
    else (if all[0].segs != [] && all[0].interval == interval then [all[0]] else []) + OfInterval(all[1..], interval)
  }

  /** No leaf that has the interval of the whole stands in a subtree that is lost. */
  predicate NothingHidden<T>(t: Tree<Series<T>>, interval: int) {
    match t
    case Leaf(_) => true
    case Node(l, r) =>
      && NothingHidden(l, interval)
      && if Meets(l.Leaves(), r.Leaves()) then NothingHidden(r, interval) else OfInterval(r.Leaves(), interval) == []
  }

  ghost predicate Dated<T, C>(v: Measure<T, C>, s: Series<T>) { AllOk(v, s.segs) && (s.segs != [] ==> s.interval > 0) }

  /** The total of a series, as a measure of whole series. */
  ghost function Totals<T, C>(v: Measure<T, C>): Measure<Series<T>, C> {
    Measure((s: Series<T>) => AllOk(v, s.segs), (s: Series<T>) => Sum(v, s.segs), v.zero, v.plus)
  }

  /** One merge adds the argument's total, unless both have data and their intervals differ. */
  lemma {:induction false} MergeTotal<T(!new), C(!new)>(e: Element<T>, v: Measure<T, C>, a: Series<T>, b: Series<T>)
    requires Measures(e, v) && Dated(v, a) && Dated(v, b)
    ensures AllOk(v, Merged(e, a, b).segs)
    ensures Sum(v, Merged(e, a, b).segs) ==
      if a.segs != [] && b.segs != [] && a.interval != b.interval then Sum(v, a.segs)
      else v.plus(Sum(v, a.segs), Sum(v, b.segs))
  {
    MergedOk(e, v, a, b);
    if !(a.segs != [] && b.segs != [] && a.interval != b.interval) {
      MergeConserves(e, v, a, b);
    }
  }

  /** A tree of merges keeps exactly the total of its surviving leaves, aligned or not. */
  lemma {:induction false} TreeTotal<T(!new), C(!new)>(e: Element<T>, v: Measure<T, C>, t: Tree<Series<T>>)
    requires Measures(e, v) && forall s <- t.Leaves() :: Dated(v, s)
    ensures Dated(v, t.Eval(Joiner(e))) && Sum(v, t.Eval(Joiner(e)).segs) == Sum(Totals(v), Surviving(t))
  {
    match t
    case Leaf(s) =>
      assert s in t.Leaves() && [s][1..] == [];
      Laws(v.zero, v.plus, Sum(v, s.segs), v.zero, v.zero);
    case Node(l, r) =>
      assert forall s <- l.Leaves() :: s in t.Leaves();
      assert forall s <- r.Leaves() :: s in t.Leaves();
      TreeTotal(e, v, l);
      TreeTotal(e, v, r);
      NodeTotal(e, v, l, r);
  }

  lemma {:induction false} NodeTotal<T(!new), C(!new)>(
      e: Element<T>, v: Measure<T, C>, l: Tree<Series<T>>, r: Tree<Series<T>>)
    requires Measures(e, v) && forall s <- l.Leaves() + r.Leaves() :: Dated(v, s)
    requires Dated(v, l.Eval(Joiner(e))) && Sum(v, l.Eval(Joiner(e)).segs) == Sum(Totals(v), Surviving(l))
    requires Dated(v, r.Eval(Joiner(e))) && Sum(v, r.Eval(Joiner(e)).segs) == Sum(Totals(v), Surviving(r))
    ensures var t := Node(l, r);
            && Dated(v, t.Eval(Joiner(e)))
            && Sum(v, t.Eval(Joiner(e)).segs) == Sum(Totals(v), Surviving(t))
  {
    var t := Node(l, r);
    assert forall s <- l.Leaves() :: s in l.Leaves() + r.Leaves();
    assert forall s <- r.Leaves() :: s in l.Leaves() + r.Leaves();
    TreeInterval(e, l);
    TreeInterval(e, r);
    TreeInterval(e, t);
    var a, b := l.Eval(Joiner(e)), r.Eval(Joiner(e));
    assert t.Eval(Joiner(e)) == Merged(e, a, b);
    assert Surviving(t) == Surviving(l) + if Meets(l.Leaves(), r.Leaves()) then Surviving(r) else [];
    assert Surviving(l) + [] == Surviving(l);
    hide Merged, Tree.Eval, Surviving, FirstInterval, Tree.Leaves;
    MergeTotal(e, v, a, b);
    SumAppend(Totals(v), Surviving(l), Surviving(r));
  }

  lemma {:induction false} OfIntervalAppend<T>(xs: seq<Series<T>>, ys: seq<Series<T>>, interval: int)
    ensures OfInterval(xs + ys, interval) == OfInterval(xs, interval) + OfInterval(ys, interval)
  {
    if xs == [] {
      assert xs + ys == ys;
    } else {
      assert (xs + ys)[1..] == xs[1..] + ys;
      OfIntervalAppend(xs[1..], ys, interval);
    }
  }

  lemma {:induction false} NoData<T>(all: seq<Series<T>>, interval: int)
    requires FirstInterval(all) == 0 && forall s <- all :: s.segs != [] ==> s.interval > 0
    ensures OfInterval(all, interval) == []
  {
    if all != [] {
      assert all[0] in all;
      NoData(all[1..], interval);
    }
  }

  lemma {:induction false} NothingSurvives<T>(t: Tree<Series<T>>, interval: int)
    requires FirstInterval(t.Leaves()) == 0 && forall s <- t.Leaves() :: s.segs != [] ==> s.interval > 0
    ensures Surviving(t) == OfInterval(t.Leaves(), interval) == [] && NothingHidden(t, interval)
  {
    NoData(t.Leaves(), interval);
    match t
    case Leaf(s) =>
    case Node(l, r) =>
      assert forall s <- l.Leaves() :: s in t.Leaves();
      assert forall s <- r.Leaves() :: s in t.Leaves();
      FirstIntervalAppend(l.Leaves(), r.Leaves());
      FirstIntervalAppend(r.Leaves(), []);
      NothingSurvives(l, interval);
      NothingSurvives(r, interval);
  }

  /** What survives has the interval of the whole, and is all of that interval if and only if none is hidden. */
  lemma {:induction false} SurvivingOf<T>(t: Tree<Series<T>>, interval: int)
    requires forall s <- t.Leaves() :: s.segs != [] ==> s.interval > 0
    requires FirstInterval(t.Leaves()) == interval > 0
    ensures |Surviving(t)| <= |OfInterval(t.Leaves(), interval)|
    ensures Surviving(t) == OfInterval(t.Leaves(), interval) <==> NothingHidden(t, interval)
  {
    match t
    case Leaf(s) => assert t.Leaves()[1..] == [];
    case Node(l, r) =>
      assert forall s <- l.Leaves() :: s in t.Leaves();
      assert forall s <- r.Leaves() :: s in t.Leaves();
      var (xs, ys) := (l.Leaves(), r.Leaves());
      FirstIntervalAppend(xs, ys);
      FirstIntervalAppend(ys, []);
      OfIntervalAppend(xs, ys, interval);
      if FirstInterval(xs) == 0 { NothingSurvives(l, interval); } else { SurvivingOf(l, interval); }
      if FirstInterval(ys) == 0 {
        NothingSurvives(r, interval);
      } else if FirstInterval(ys) == interval {
        SurvivingOf(r, interval);
      }
      hide OfInterval, FirstInterval, Tree.Leaves;
      Parts(Surviving(l), OfInterval(xs, interval), Surviving(r), OfInterval(ys, interval));
  }

  lemma Parts<A>(s: seq<A>, xs: seq<A>, t: seq<A>, ys: seq<A>)
    requires |s| <= |xs|
    ensures |t| <= |ys| ==> (s + t == xs + ys <==> s == xs && t == ys)
    ensures s + [] == xs + ys <==> s == xs && ys == []
  {
    if |t| <= |ys| && s + t == xs + ys {
      assert |s| == |xs|;
      assert s == (s + t)[..|s|] && xs == (xs + ys)[..|s|] && t == (s + t)[|s|..] && ys == (xs + ys)[|s|..];
    }
    if s + [] == xs + ys {
      assert s == (xs + ys) && |ys| == 0;
    }
  }

  /**
   A tree of merges keeps exactly the series that have the interval of the first with data, if and only if none
   of those is hidden in a subtree of another interval.
   */
  lemma {:induction false} SurvivingIff<T>(t: Tree<Series<T>>)
    requires forall s <- t.Leaves() :: s.segs != [] ==> s.interval > 0
    ensures var interval := FirstInterval(t.Leaves());
            Surviving(t) == OfInterval(t.Leaves(), interval) <==> NothingHidden(t, interval)
  {
    FirstIntervalAppend(t.Leaves(), []);
    if FirstInterval(t.Leaves()) == 0 {
      NothingSurvives(t, 0);
    } else {
      SurvivingOf(t, FirstInterval(t.Leaves()));
    }
  }

  lemma {:induction false} ChainHidesNothing<T>(xs: seq<Series<T>>)
    requires xs != [] && forall s <- xs :: s.segs != [] ==> s.interval > 0
    ensures NothingHidden(Chain(xs), FirstInterval(xs))
  {
    ChainOf(xs, FirstInterval(xs));
  }

  lemma {:induction false} ChainOf<T>(xs: seq<Series<T>>, interval: int)
    requires xs != [] && forall s <- xs :: s.segs != [] ==> s.interval > 0
    requires FirstInterval(xs) == interval || FirstInterval(xs) == 0
    ensures NothingHidden(Chain(xs), interval)
  {
    var n := |xs| - 1;
    assert [xs[n]][1..] == [];
    if n > 0 {
      assert xs == xs[..n] + [xs[n]];
      FirstIntervalAppend(xs[..n], [xs[n]]);
      ChainOf(xs[..n], interval);
    }
  }

  /** Merging series one after the other keeps exactly those that have the interval of the first with data. */
  lemma {:induction false} ChainTotal<T(!new), C(!new)>(e: Element<T>, v: Measure<T, C>, xs: seq<Series<T>>)
    requires Measures(e, v) && xs != [] && forall s <- xs :: Dated(v, s)
    ensures Sum(v, Chain(xs).Eval(Joiner(e)).segs) == Sum(Totals(v), OfInterval(xs, FirstInterval(xs)))
  {
    TreeTotal(e, v, Chain(xs));
    ChainHidesNothing(xs);
    SurvivingIff(Chain(xs));
  }

  /** A series can be hidden: a minute behind an hour is lost, although the receiver counts minutes. */
  lemma HiddenShows()
    ensures var e := Element(0, (x: int, y: int) => x + y);
            var (a, b, c) := (Leaf(Series(60, 0, [1])), Leaf(Series(3600, 0, [10])), Leaf(Series(60, 0, [100])));
            && Node(a, Node(b, c)).Eval(Joiner(e)).segs == [1]
            && Node(Node(a, b), c).Eval(Joiner(e)).segs == [101]
  {
    var e := Element(0, (x: int, y: int) => x + y);
    var a, c := Series(60, 0, [1]), Series(60, 0, [100]);
    DivUnique(0, a.Step(), 0, 0);
    assert Merged(e, a, c).segs == [101] by {
      hide Series.Step;
    }
  }
}
