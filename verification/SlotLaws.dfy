/**
 What `Segmented.Add` does, slot by slot and without its own arithmetic: which slot an instant falls into, what
 the 64-bit quantities are, and what becomes of series whose interval is negative.
 */
module SlotLaws {
  import opened Basics
  import opened Folds
  import opened Segments

  /** Instant t lies in slot n of a timeline that starts here. */
  predicate InSlot(t: int, start: int, step: int, n: int) { start + n * step <= t < start + (n + 1) * step }

  lemma SlotIs<T>(s: Series<T>, start: int, n: nat)
    requires s.interval > 0 && start <= s.first && InSlot(s.first, start, s.Step(), n)
    ensures Offset(s, start) == n
  {
    var d := s.first - start - n * s.Step();
    assert (n + 1) * s.Step() == n * s.Step() + s.Step();
    DivUnique(s.first - start, s.Step(), n, d);
  }

  /**
   Two series with data and one positive interval, whose first slots begin in slots i and j of the timeline that
   starts with the earlier one: the sum covers both, the receiver's segment stands on the left of every
   addition, and a slot that neither covers is zero.
   */
  lemma {:induction false} AddsBySlot<T>(e: Element<T>, a: Series<T>, b: Series<T>, i: nat, j: nat)
    requires a.segs != [] && b.segs != [] && a.interval == b.interval > 0
    requires Max(a.End(), b.End()) - Min(a.first, b.first) <= MAX_DURATION
    requires InSlot(a.first, Min(a.first, b.first), a.Step(), i) && InSlot(b.first, Min(a.first, b.first), a.Step(), j)
    ensures AddOutcome(e, a, b).Gives?
    ensures var sum := AddOutcome(e, a, b).sum;
            && sum.interval == a.interval && sum.first <= a.first && sum.first <= b.first
            && (sum.first == a.first || sum.first == b.first)
            && |sum.segs| == Max(i + |a.segs|, j + |b.segs|)
            && (forall k :: i <= k < i + |a.segs| && j <= k < j + |b.segs| ==>
                  sum.segs[k] == e.add(a.segs[k - i], b.segs[k - j]))
            && (forall k :: i <= k < i + |a.segs| && !(j <= k < j + |b.segs|) ==> sum.segs[k] == a.segs[k - i])
            && (forall k :: j <= k < j + |b.segs| && !(i <= k < i + |a.segs|) ==>
                  sum.segs[k] == e.add(e.zero, b.segs[k - j]))
            && forall k :: 0 <= k < |sum.segs| && !(i <= k < i + |a.segs|) && !(j <= k < j + |b.segs|) ==>
                  sum.segs[k] == e.zero
  {
    AddMerged(e, a, b);
    SlotIs(a, Min(a.first, b.first), i);
    SlotIs(b, Min(a.first, b.first), j);
  }

  // ----- 64-bit arithmetic

  /** The wrapped value is the one of all congruent numbers that fits. */
  lemma WrapIs(p: int, n: int, r: int)
    requires -MAX_DURATION - 1 <= r <= MAX_DURATION && p == r + n * (2 * (MAX_DURATION + 1))
    ensures Wrap(p) == r
  {
    DivUnique(p + MAX_DURATION + 1, 2 * (MAX_DURATION + 1), n, r + MAX_DURATION + 1);
  }

  function Distance(x: int, y: int): int { if x < y then y - x else x - y }

  /** A difference of times is the nearest one that fits. */
  lemma SubIs(t: int, u: int, r: int)
    requires -MAX_DURATION - 1 <= r <= MAX_DURATION
    ensures -MAX_DURATION - 1 <= Sub(t, u) <= MAX_DURATION && Distance(Sub(t, u), t - u) <= Distance(r, t - u)
  {
  }

  /** The quotient times the divisor comes closest to x among the multiples that are no farther from zero. */
  lemma QuotientIs(x: int, y: int)
    requires y != 0
    ensures x >= 0 ==> 0 <= x - Quotient(x, y) * y < (if y < 0 then -y else y)
    ensures x <= 0 ==> 0 <= Quotient(x, y) * y - x < (if y < 0 then -y else y)
  {
    var a, b := if x < 0 then -x else x, if y < 0 then -y else y;
    assert a == (a / b) * b + a % b;
  }

  // ----- Negative intervals

  /** The segments of two series that run backwards as they overlap when b starts m slots later. */
  function Overlaid<T>(e: Element<T>, a: seq<T>, b: seq<T>, m: nat): (r: seq<T>)
    ensures |r| == |a|
    ensures forall k :: 0 <= k < |a| ==> r[k] == if k + m < |b| then e.add(a[k], b[k + m]) else a[k]
  {
    seq(|a|, k requires 0 <= k < |a| => if k + m < |b| then e.add(a[k], b[k + m]) else a[k])
  }

  lemma BackwardsQuotient(x: int, s: int)
    requires s > 0
    ensures Quotient(x, -s) == if x >= 0 then -(x / s) else -x / s
  {
  }

  /** The durations of two series that run backwards, where nothing overflows. */
  lemma BackwardsExact<T>(a: Series<T>, b: Series<T>, s: int)
    requires a.segs != [] && b.segs != [] && a.interval == b.interval < 0 && s == -a.Step()
    requires Max(a.first, b.first) - Min(a.End(), b.End()) <= MAX_DURATION
    ensures var start := Min(a.first, b.first);
            && s > 0 && Times(a.interval, SECOND) == -s
            && Times(|a.segs|, -s) == a.End() - a.first && Times(|b.segs|, -s) == b.End() - b.first
            && a.End() == a.first - |a.segs| * s && b.End() == b.first - |b.segs| * s
            && Sub(a.first, start) == a.first - start && Sub(b.first, start) == b.first - start
            && Sub(Max(a.End(), b.End()), start) == Max(a.End(), b.End()) - start
  {
    MulMonotone(1, |a.segs|, s);
    MulMonotone(1, |b.segs|, s);
    assert |a.segs| * -s == -(|a.segs| * s) && |b.segs| * -s == -(|b.segs| * s);
    TimesExact(a.interval, SECOND);
    TimesExact(|a.segs|, -s);
    TimesExact(|b.segs|, -s);
  }

  /** How many slots there are between the start and an end n slots and d nanoseconds earlier. */
  lemma SlotsBackwards(n: nat, d: int, s: int)
    requires s > 0 && n * s - d >= 0
    ensures d > 0 ==> (n * s - d) / s < n
    ensures d == 0 ==> (n * s - d) / s == n
  {
    var q := (n * s - d) / s;
    assert n * s - d == q * s + (n * s - d) % s;
    if d > 0 && q >= n { MulMonotone(n, q, s); }
    if d == 0 { DivUnique(n * s, s, n, 0); }
  }

  /** A receiver that starts later, or ends earlier: the array would be too short. */
  lemma {:induction false} NegativePanics<T>(e: Element<T>, a: Series<T>, b: Series<T>)
    requires a.segs != [] && b.segs != [] && a.interval == b.interval < 0 && !SlotBySlot(a, b)
    requires Max(a.first, b.first) - Min(a.End(), b.End()) <= MAX_DURATION
    requires b.first < a.first || a.End() < b.End()
    ensures Unaligned(e, a, b) == Panics
  {
    var s, start, last := -a.Step(), Min(a.first, b.first), Max(a.End(), b.End());
    BackwardsExact(a, b, s);
    BackwardsQuotient(last - start, s);
    BackwardsQuotient(a.first - start, s);
    MulMonotone(1, |a.segs|, s);
    if last >= start {
      DivMonotone(0, last - start, s);
    } else {
      var d := |a.segs| * s - (start - last);
      SlotsBackwards(|a.segs|, d, s);
    }
    DivMonotone(0, a.first - start, s);
  }

  lemma BackwardsQuotients(n: nat, d: int, m: nat, s: int)
    requires s > 0 && InSlot(d, 0, s, m)
    ensures Quotient(-(n * s), -s) == n && Quotient(0, -s) == 0 && Quotient(d, -s) == 0 - m
  {
    hide Quotient;
    MulMonotone(0, n, s);
    MulMonotone(0, m, s);
    BackwardsQuotient(-(n * s), s);
    BackwardsQuotient(0, s);
    BackwardsQuotient(d, s);
    DivUnique(n * s, s, n, 0);
    DivUnique(0, s, 0, 0);
    assert (m + 1) * s == m * s + s;
    DivUnique(d, s, m, d - m * s);
  }

  /** Otherwise the receiver keeps its timeline; the argument starts m whole slots behind it. */
  lemma {:induction false} NegativeAdds<T>(e: Element<T>, a: Series<T>, b: Series<T>, m: nat)
    requires a.segs != [] && b.segs != [] && a.interval == b.interval < 0
    requires Max(a.first, b.first) - Min(a.End(), b.End()) <= MAX_DURATION
    requires a.first <= b.first && b.End() <= a.End() && InSlot(b.first - a.first, 0, -a.Step(), m)
    ensures Unaligned(e, a, b) == Gives(Series(a.interval, a.first, Overlaid(e, a.segs, b.segs, m)))
  {
    hide Times, Sub, Quotient, InSlot, Laid;
    var s, n := -a.Step(), |a.segs|;
    BackwardsExact(a, b, s);
    BackwardsQuotients(n, b.first - a.first, m, s);
    hide Series.Step, Series.End;
    assert Unaligned(e, a, b) == Laid(e, a, b, a.first, n, 0, 0 - m);
    LaidOver(e, a, b, m);
  }

  lemma LaidOver<T>(e: Element<T>, a: Series<T>, b: Series<T>, m: nat)
    ensures Laid(e, a, b, a.first, |a.segs|, 0, 0 - m)
         == Gives(Series(a.interval, a.first, Overlaid(e, a.segs, b.segs, m)))
  {
    assert seq(|a.segs|, k => Slot(e, a.segs, 0, b.segs, 0 - m, k)) == Overlaid(e, a.segs, b.segs, m);
  }

  /**
   With a negative interval a series ends before it starts.  Then the general path, where nothing overflows,
   panics unless the receiver starts no later and ends no earlier than the argument, which starts m slots
   behind it; if it does not panic, the receiver keeps its timeline.
   */
  lemma {:induction false} NegativeIff<T>(e: Element<T>, a: Series<T>, b: Series<T>, m: nat)
    requires a.segs != [] && b.segs != [] && a.interval == b.interval < 0 && !SlotBySlot(a, b)
    requires Max(a.first, b.first) - Min(a.End(), b.End()) <= MAX_DURATION
    requires a.first <= b.first ==> InSlot(b.first - a.first, 0, -a.Step(), m)
    ensures AddOutcome(e, a, b) ==
      if a.first <= b.first && b.End() <= a.End()
      then Gives(Series(a.interval, a.first, Overlaid(e, a.segs, b.segs, m)))
      else Panics
  {
    hide Unaligned, InSlot;
    if a.first <= b.first && b.End() <= a.End() {
      NegativeAdds(e, a, b, m);
    } else {
      NegativePanics(e, a, b);
    }
  }

  // ----- Series one after the other

  /** Joining starts from the zero value and adds one series after the other. */
  lemma {:induction false} JoinAllGrows<T>(e: Element<T>, all: seq<Series<T>>, s: Series<T>)
    requires Mergeable(JoinAll(e, all), s)
    ensures JoinAll(e, []) == Series(0, 0, []) && AddOutcome(e, JoinAll(e, all), s) == Gives(JoinAll(e, all + [s]))
  {
    FoldLeftSnoc(Joiner(e), EmptySeries<T>(), all, s);
    AddMerged(e, JoinAll(e, all), s);
  }

  /** All segments: those of the first series, then those of the next, and so on. */
  lemma {:induction false} AllSegmentsAppend<T>(xs: seq<Series<T>>, s: Series<T>, ys: seq<Series<T>>)
    ensures AllSegments(xs + [s] + ys) == AllSegments(xs) + s.segs + AllSegments(ys)
  {
    if ys == [] {
      assert xs + [s] + ys == xs + [s] && (xs + [s])[..|xs|] == xs;
    } else {
      var n := |ys| - 1;
      assert (xs + [s] + ys)[..|xs| + 1 + n] == xs + [s] + ys[..n];
      AllSegmentsAppend(xs, s, ys[..n]);
    }
  }
}
