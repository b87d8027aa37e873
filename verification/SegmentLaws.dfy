/**
 What merging time series promises: values add up slot time by slot time, the order and the shape
 of the merge tree do not matter, and no segment is ever lost.
 */
module SegmentLaws {
  import opened Folds
  import opened Segments

  /** A measure of elements that counts the zero element as nothing. */
  ghost predicate Measures<T(!new), C(!new)>(e: Element<T>, v: Measure<T, C>) {
    Lawful(e.add, v) && v.ok(e.zero) && v.of(e.zero) == v.zero
  }

  /** The value of the series at slot time t; times it does not cover count as zero. */
  ghost function At<T, C>(v: Measure<T, C>, s: Series<T>, t: int): C {
    var step := s.Step();
    if step > 0 && (t - s.first) % step == 0 && 0 <= (t - s.first) / step < |s.segs|
    then v.of(s.segs[(t - s.first) / step])
    else v.zero
  }

  /** The series either is empty or lies on the grid of this interval through this phase. */
  ghost predicate OnGrid<T, C>(v: Measure<T, C>, interval: int, phase: int, s: Series<T>) {
    && AllOk(v, s.segs)
    && (s.segs != [] ==> s.interval == interval > 0 && (s.first - phase) % s.Step() == 0)
  }

  // ----- One merge

  /** Slot k of a timeline starting i steps before s is slot k - i of s. */
  lemma AtSlot<T, C>(v: Measure<T, C>, s: Series<T>, start: int, i: int, k: int)
    requires s.interval > 0 && s.first == start + i * s.Step()
    ensures At(v, s, start + k * s.Step()) == if 0 <= k - i < |s.segs| then v.of(s.segs[k - i]) else v.zero
  {
    assert k * s.Step() - i * s.Step() == (k - i) * s.Step();
    DivUnique((k - i) * s.Step(), s.Step(), k - i, 0);
  }

  lemma ModShift(x: int, y: int, step: int)
    requires step > 0 && y % step == 0
    ensures x % step == (x - y) % step && x / step == (x - y) / step + y / step
  {
    assert y == (y / step) * step;
    DivShift(x - y, y / step, step);
  }

  lemma LookupOk<T(!new), C(!new)>(e: Element<T>, v: Measure<T, C>, segs: seq<T>, i: int)
    requires Measures(e, v) && AllOk(v, segs)
    ensures v.ok(Lookup(e.zero, segs, i))
  {
  }

  lemma SlotMeasure<T(!new), C(!new)>(e: Element<T>, v: Measure<T, C>, a: seq<T>, i: int, b: seq<T>, j: int, k: int)
    requires Measures(e, v) && AllOk(v, a) && AllOk(v, b)
    ensures v.ok(Slot(e, a, i, b, j, k))
    ensures v.of(Slot(e, a, i, b, j, k))
         == v.plus(v.of(Lookup(e.zero, a, k - i)), v.of(Lookup(e.zero, b, k - j)))
  {
    LookupOk(e, v, a, k - i);
    Laws(v.zero, v.plus, v.of(Lookup(e.zero, a, k - i)), v.zero, v.zero);
  }

  lemma MergedOk<T(!new), C(!new)>(e: Element<T>, v: Measure<T, C>, a: Series<T>, b: Series<T>)
    requires Measures(e, v) && AllOk(v, a.segs) && AllOk(v, b.segs)
    ensures AllOk(v, Merged(e, a, b).segs)
  {
    if SameTimeline(a, b) && a.interval > 0 {
      var start := Min(a.first, b.first);
      var i, j := Offset(a, start), Offset(b, start);
      forall k | 0 <= k < |Merged(e, a, b).segs| ensures v.ok(Merged(e, a, b).segs[k]) {
        SlotMeasure(e, v, a.segs, i, b.segs, j, k);
      }
    }
  }

  /** The two offsets are exact on a common grid, and the union spans the earlier start to the later end. */
  lemma MergedSpan<T>(e: Element<T>, phase: int, a: Series<T>, b: Series<T>)
    requires SameTimeline(a, b) && a.interval > 0
    requires (a.first - phase) % a.Step() == 0 == (b.first - phase) % b.Step()
    ensures var r, start, step := Merged(e, a, b), Min(a.first, b.first), a.Step();
            && a.first == start + Offset(a, start) * step && b.first == start + Offset(b, start) * step
            && (r.first - phase) % step == 0 && r.End() == Max(a.End(), b.End())
  {
    var r, start, step := Merged(e, a, b), Min(a.first, b.first), a.Step();
    var i, j := Offset(a, start), Offset(b, start);
    ModShift(a.first - phase, start - phase, step);
    ModShift(b.first - phase, start - phase, step);
    assert a.first - start == i * step && b.first - start == j * step;
    if i + |a.segs| <= j + |b.segs| {
      MulMonotone(i + |a.segs|, j + |b.segs|, step);
    } else {
      MulMonotone(j + |b.segs|, i + |a.segs|, step);
    }
  }

  lemma OffGrid<T, C>(v: Measure<T, C>, s: Series<T>, start: int, t: int)
    requires s.interval > 0 && (s.first - start) % s.Step() == 0 && (t - start) % s.Step() != 0
    ensures At(v, s, t) == v.zero
  {
    ModShift(t - start, s.first - start, s.Step());
  }

  /** At every instant the merge of two non-empty series on a common grid adds up. */
  lemma InstantAddsUp<T(!new), C(!new)>(e: Element<T>, v: Measure<T, C>, phase: int, a: Series<T>, b: Series<T>, t: int)
    requires Measures(e, v) && AllOk(v, a.segs) && AllOk(v, b.segs)
    requires SameTimeline(a, b) && a.interval > 0
    requires (a.first - phase) % a.Step() == 0 == (b.first - phase) % b.Step()
    ensures At(v, Merged(e, a, b), t) == v.plus(At(v, a, t), At(v, b, t))
  {
    var r, start, step := Merged(e, a, b), Min(a.first, b.first), a.Step();
    var i, j := Offset(a, start), Offset(b, start);
    MergedSpan(e, phase, a, b);
    if (t - start) % step == 0 {
      var k := (t - start) / step;
      assert t == start + k * step;
      SlotAddsUp(e, v, a, b, k);
    } else {
      DivUnique(a.first - start, step, i, 0);
      DivUnique(b.first - start, step, j, 0);
      OffGrid(v, a, start, t);
      OffGrid(v, b, start, t);
      Laws(v.zero, v.plus, v.zero, v.zero, v.zero);
    }
  }

  /** At slot k of the merge, where both offsets are exact. */
  lemma SlotAddsUp<T(!new), C(!new)>(e: Element<T>, v: Measure<T, C>, a: Series<T>, b: Series<T>, k: int)
    requires Measures(e, v) && AllOk(v, a.segs) && AllOk(v, b.segs) && SameTimeline(a, b) && a.interval > 0
    requires var start := Min(a.first, b.first);
             a.first == start + Offset(a, start) * a.Step() && b.first == start + Offset(b, start) * b.Step()
    ensures var t := Min(a.first, b.first) + k * a.Step();
            At(v, Merged(e, a, b), t) == v.plus(At(v, a, t), At(v, b, t))
  {
    var r, start := Merged(e, a, b), Min(a.first, b.first);
    var i, j := Offset(a, start), Offset(b, start);
    AtSlot(v, r, start, 0, k);
    AtSlot(v, a, start, i, k);
    AtSlot(v, b, start, j, k);
    SlotMeasure(e, v, a.segs, i, b.segs, j, k);
    hide At, Offset;
    Laws(v.zero, v.plus, v.zero, v.zero, v.zero);
  }

  /**
   On a common grid the merge adds up at every instant, from the earlier start to the later end,
   whichever of the copy, fast and general paths produced it.
   */
  lemma MergeAddsUp<T(!new), C(!new)>(
    e: Element<T>, v: Measure<T, C>, interval: int, phase: int, a: Series<T>, b: Series<T>, t: int)
    requires Measures(e, v) && OnGrid(v, interval, phase, a) && OnGrid(v, interval, phase, b)
    ensures var r := Merged(e, a, b);
            && OnGrid(v, interval, phase, r)
            && At(v, r, t) == v.plus(At(v, a, t), At(v, b, t))
            && (a.segs != [] && b.segs != [] ==>
                  r.first == Min(a.first, b.first) && r.End() == Max(a.End(), b.End()))
  {
    MergedOk(e, v, a, b);
    Laws(v.zero, v.plus, At(v, a, t), At(v, b, t), v.zero);
    if a.segs != [] && b.segs != [] {
      MergedSpan(e, phase, a, b);
      InstantAddsUp(e, v, phase, a, b, t);
    }
  }

  // ----- Order and shape

  /** The value at one instant, as a measure of whole series. */
  ghost function Instant<T, C>(v: Measure<T, C>, interval: int, phase: int, t: int): Measure<Series<T>, C> {
    Measure(s => OnGrid(v, interval, phase, s), s => At(v, s, t), v.zero, v.plus)
  }

  /** The covered span, as a measure of whole series. */
  datatype Span = Nowhere | Span(lo: int, hi: int) {
    function Join(other: Span): Span {
      if other.Nowhere? then this else if Nowhere? then other
      else Span(Min(lo, other.lo), Max(hi, other.hi))
    }
  }

  ghost function Extent<T, C>(v: Measure<T, C>, interval: int, phase: int): Measure<Series<T>, Span> {
    Measure(s => OnGrid(v, interval, phase, s),
            (s: Series<T>) => if s.segs == [] then Nowhere else Span(s.first, s.End()),
            Nowhere, (x: Span, y: Span) => x.Join(y))
  }

  lemma InstantLawful<T(!new), C(!new)>(e: Element<T>, v: Measure<T, C>, interval: int, phase: int, t: int)
    requires Measures(e, v)
    ensures Lawful(Joiner(e), Instant(v, interval, phase, t))
    ensures Lawful(Joiner(e), Extent(v, interval, phase))
  {
    forall a, b | OnGrid(v, interval, phase, a) && OnGrid(v, interval, phase, b)
      ensures OnGrid(v, interval, phase, Joiner(e)(a, b))
      ensures At(v, Joiner(e)(a, b), t) == v.plus(At(v, a, t), At(v, b, t))
      ensures var ext := Extent(v, interval, phase);
              ext.of(Joiner(e)(a, b)) == ext.plus(ext.of(a), ext.of(b))
    {
      MergeAddsUp(e, v, interval, phase, a, b, t);
    }
  }

  /** Same timeline, and every segment measures the same. */
  ghost predicate Agree<T, C>(v: Measure<T, C>, r: Series<T>, s: Series<T>) {
    && |r.segs| == |s.segs|
    && (r.segs != [] ==> r.interval == s.interval && r.first == s.first)
    && forall i :: 0 <= i < |r.segs| ==> v.of(r.segs[i]) == v.of(s.segs[i])
  }

  /**
   Any order and any tree of merges of the same series, some of them possibly empty, gives the same
   timeline and the same measure of every segment.
   */
  lemma {:induction false} MergeOrderIrrelevant<T(!new), C(!new)>(
    e: Element<T>, v: Measure<T, C>, interval: int, phase: int, x: Tree<Series<T>>, y: Tree<Series<T>>)
    requires Measures(e, v) && multiset(x.Leaves()) == multiset(y.Leaves())
    requires forall i :: 0 <= i < |x.Leaves()| ==> OnGrid(v, interval, phase, x.Leaves()[i])
    ensures Agree(v, x.Eval(Joiner(e)), y.Eval(Joiner(e)))
  {
    InstantLawful(e, v, interval, phase, 0);
    OrderAndShapeIrrelevant(Joiner(e), Extent(v, interval, phase), x, y);
    var r, s := x.Eval(Joiner(e)), y.Eval(Joiner(e));
    forall t ensures At(v, r, t) == At(v, s, t) {
      InstantLawful(e, v, interval, phase, t);
      OrderAndShapeIrrelevant(Joiner(e), Instant(v, interval, phase, t), x, y);
    }
    SameInstantsAgree(v, interval, phase, r, s);
  }

  /** These series lie on one grid, or are empty. */
  ghost predicate OneGrid<T>(t: Tree<Series<T>>, interval: int, phase: int) {
    forall s <- t.Leaves() :: s.segs != [] ==> s.interval == interval > 0 && (s.first - phase) % s.Step() == 0
  }

  lemma {:induction false} LeavesOnGrid<T, C>(v: Measure<T, C>, interval: int, phase: int, t: Tree<Series<T>>)
    requires OneGrid(t, interval, phase) && forall s <- t.Leaves() :: AllOk(v, s.segs)
    ensures forall i :: 0 <= i < |t.Leaves()| ==> OnGrid(v, interval, phase, t.Leaves()[i])
  {
    assert forall i :: 0 <= i < |t.Leaves()| ==> t.Leaves()[i] in t.Leaves();
  }

  lemma Itself<T(!new)>(e: Element<T>) returns (v: Measure<T, T>)
    requires CommutativeMonoid(e.zero, e.add)
    ensures Measures(e, v) && v == Measure(v.ok, v.of, e.zero, e.add)
    ensures forall x :: v.ok(x) && v.of(x) == x
  {
    v := Measure((_: T) => true, (t: T) => t, e.zero, e.add);
  }

  /** With elements that form a commutative monoid even the segments themselves are the same. */
  lemma {:induction false} MonoidMergeOrderIrrelevant<T(!new)>(
    e: Element<T>, interval: int, phase: int, x: Tree<Series<T>>, y: Tree<Series<T>>)
    requires CommutativeMonoid(e.zero, e.add) && multiset(x.Leaves()) == multiset(y.Leaves())
    requires OneGrid(x, interval, phase)
    ensures var r, s := x.Eval(Joiner(e)), y.Eval(Joiner(e));
            r.segs == s.segs && (r.segs != [] ==> r.interval == s.interval && r.first == s.first)
  {
    var v := Itself(e);
    LeavesOnGrid(v, interval, phase, x);
    hide OnGrid, OneGrid, Measures, CommutativeMonoid, Merged, Joiner;
    MergeOrderIrrelevant(e, v, interval, phase, x, y);
  }

  /** On one grid a series is determined by its extent and its values at every instant. */
  lemma SameInstantsAgree<T, C>(v: Measure<T, C>, interval: int, phase: int, r: Series<T>, s: Series<T>)
    requires OnGrid(v, interval, phase, r) && OnGrid(v, interval, phase, s)
    requires Extent(v, interval, phase).of(r) == Extent(v, interval, phase).of(s)
    requires forall t :: At(v, r, t) == At(v, s, t)
    ensures Agree(v, r, s)
  {
    if r.segs != [] {
      MulCancel(|r.segs|, |s.segs|, r.Step());
      forall i | 0 <= i < |r.segs| ensures v.of(r.segs[i]) == v.of(s.segs[i]) {
        AtSlot(v, r, r.first, 0, i);
        AtSlot(v, s, r.first, 0, i);
        assert At(v, r, r.first + i * r.Step()) == At(v, s, r.first + i * r.Step());
      }
    }
  }

  lemma MulCancel(x: int, y: int, step: int)
    requires step > 0 && x * step == y * step
    ensures x == y
  {
    if x < y { MulMonotone(x + 1, y, step); }
    if y < x { MulMonotone(y + 1, x, step); }
  }

  // ----- Conservation, aligned or not

  /** The total of all segments, as a measure of whole series of one interval. */
  ghost function Whole<T, C>(v: Measure<T, C>, interval: int): Measure<Series<T>, C> {
    Measure((s: Series<T>) => AllOk(v, s.segs) && (s.segs != [] ==> s.interval == interval),
            (s: Series<T>) => Sum(v, s.segs), v.zero, v.plus)
  }

  ghost function Shifted<T>(zero: T, segs: seq<T>, i: nat, n: nat): (r: seq<T>)
    ensures |r| == n && forall k :: 0 <= k < n ==> r[k] == Lookup(zero, segs, k - i)
  {
    seq(n, k => Lookup(zero, segs, k - i))
  }

  /** Padding a series with zero slots on both sides does not change its total. */
  lemma {:induction false} SumShifted<T(!new), C(!new)>(e: Element<T>, v: Measure<T, C>, segs: seq<T>, i: nat, n: nat)
    requires Measures(e, v) && i + |segs| <= n
    ensures Sum(v, Shifted(e.zero, segs, i, n)) == Sum(v, segs)
    decreases n
  {
    var all := Shifted(e.zero, segs, i, n);
    if n == 0 {
      assert all == segs;
    } else if i > 0 {
      assert all[0] == e.zero;
      assert all[1..] == Shifted(e.zero, segs, i - 1, n - 1);
      SumShifted(e, v, segs, i - 1, n - 1);
      Laws(v.zero, v.plus, v.zero, Sum(v, segs), v.zero);
    } else if segs == [] {
      assert all[1..] == Shifted(e.zero, segs, 0, n - 1);
      SumShifted(e, v, segs, 0, n - 1);
      Laws(v.zero, v.plus, v.zero, v.zero, v.zero);
    } else {
      forall k | 0 <= k < n - 1 ensures all[1..][k] == Shifted(e.zero, segs[1..], 0, n - 1)[k] {
        assert all[k + 1] == Lookup(e.zero, segs, k + 1);
      }
      assert all[1..] == Shifted(e.zero, segs[1..], 0, n - 1);
      SumShifted(e, v, segs[1..], 0, n - 1);
    }
  }

  lemma {:induction false} SumPointwise<T(!new), C(!new)>(v: Measure<T, C>, xs: seq<T>, ys: seq<T>, zs: seq<T>)
    requires CommutativeMonoid(v.zero, v.plus) && |xs| == |ys| == |zs|
    requires forall k :: 0 <= k < |zs| ==> v.of(zs[k]) == v.plus(v.of(xs[k]), v.of(ys[k]))
    ensures Sum(v, zs) == v.plus(Sum(v, xs), Sum(v, ys))
  {
    if zs == [] {
      Laws(v.zero, v.plus, v.zero, v.zero, v.zero);
    } else {
      SumPointwise(v, xs[1..], ys[1..], zs[1..]);
      Exchange(v.zero, v.plus, v.of(xs[0]), v.of(ys[0]), Sum(v, xs[1..]), Sum(v, ys[1..]));
    }
  }

  /** A merge conserves the total: with equal intervals no segment is lost, whatever the two start times. */
  lemma {:induction false} MergeConserves<T(!new), C(!new)>(e: Element<T>, v: Measure<T, C>, a: Series<T>, b: Series<T>)
    requires Measures(e, v) && AllOk(v, a.segs) && AllOk(v, b.segs)
    requires a.segs != [] && b.segs != [] ==> a.interval == b.interval > 0
    ensures Sum(v, Merged(e, a, b).segs) == v.plus(Sum(v, a.segs), Sum(v, b.segs))
  {
    Laws(v.zero, v.plus, Sum(v, a.segs), Sum(v, b.segs), v.zero);
    if a.segs != [] && b.segs != [] {
      var r, start := Merged(e, a, b), Min(a.first, b.first);
      var i, j, n := Offset(a, start), Offset(b, start), |r.segs|;
      var xs, ys := Shifted(e.zero, a.segs, i, n), Shifted(e.zero, b.segs, j, n);
      forall k | 0 <= k < n ensures v.of(r.segs[k]) == v.plus(v.of(xs[k]), v.of(ys[k])) {
        SlotMeasure(e, v, a.segs, i, b.segs, j, k);
      }
      SumPointwise(v, xs, ys, r.segs);
      SumShifted(e, v, a.segs, i, n);
      SumShifted(e, v, b.segs, j, n);
    }
  }

  lemma WholeLawful<T(!new), C(!new)>(e: Element<T>, v: Measure<T, C>, interval: int)
    requires Measures(e, v) && interval > 0
    ensures Lawful(Joiner(e), Whole(v, interval))
  {
    forall a, b | Whole(v, interval).ok(a) && Whole(v, interval).ok(b)
      ensures Whole(v, interval).ok(Joiner(e)(a, b))
      ensures Sum(v, Joiner(e)(a, b).segs) == v.plus(Sum(v, a.segs), Sum(v, b.segs))
    {
      MergedOk(e, v, a, b);
      MergeConserves(e, v, a, b);
    }
  }

  // ----- Totals over all handlers

  lemma {:induction false} SumAllSegments<T(!new), C(!new)>(v: Measure<T, C>, interval: int, all: seq<Series<T>>)
    requires CommutativeMonoid(v.zero, v.plus) && AllOk(Whole(v, interval), all)
    ensures AllOk(v, AllSegments(all)) && Sum(v, AllSegments(all)) == Sum(Whole(v, interval), all)
  {
    var w := Whole(v, interval);
    if all != [] {
      var n := |all| - 1;
      SumAllSegments(v, interval, all[..n]);
      assert w.ok(all[n]) && all == all[..n] + [all[n]] && [all[n]][1..] == [];
      SumAppend(w, all[..n], [all[n]]);
      SumAppend(v, AllSegments(all[..n]), all[n].segs);
      Laws(v.zero, v.plus, w.of(all[n]), v.zero, v.zero);
    }
  }

  /**
   Merging all series by time and then adding up the segments gives the same measure as adding up
   every segment of every series, for any two iteration orders of the series.
   */
  lemma {:induction false} TotalsAgree<T(!new), C(!new)>(
    e: Element<T>, v: Measure<T, C>, interval: int, xs: seq<Series<T>>, ys: seq<Series<T>>)
    requires Measures(e, v) && interval > 0 && multiset(xs) == multiset(ys)
    requires forall s <- xs :: AllOk(v, s.segs) && (s.segs != [] ==> s.interval == interval)
    ensures v.of(FoldLeft(e.add, e.zero, JoinAll(e, xs).segs))
         == v.of(FoldLeft(e.add, e.zero, AllSegments(ys)))
  {
    var w := Whole(v, interval);
    WholeLawful(e, v, interval);
    forall i | 0 <= i < |ys| ensures w.ok(ys[i]) {
      assert ys[i] in multiset(xs);
    }
    assert w.ok(EmptySeries<T>());
    FoldLeftSum(Joiner(e), w, EmptySeries<T>(), xs);
    var joined := JoinAll(e, xs);
    assert w.ok(joined);
    FoldLeftSum(e.add, v, e.zero, joined.segs);
    SumPermutation(w, xs, ys);
    SumAllSegments(v, interval, ys);
    FoldLeftSum(e.add, v, e.zero, AllSegments(ys));
    Laws(v.zero, v.plus, v.zero, Sum(w, xs), v.zero);
    Laws(v.zero, v.plus, v.zero, Sum(w, ys), v.zero);
    Laws(v.zero, v.plus, v.zero, Sum(v, joined.segs), v.zero);
  }
}
