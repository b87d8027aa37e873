/** Merging whole metrics in any order: every handler's series comes out the same. */
module HandlerLaws {
  import opened Folds
  import opened Segments
  import opened SegmentLaws
  import opened Handlers
  import opened Permutations

  /** The series of one handler; none stored reads as the zero value. */
  function Get<T>(days: map<string, Series<T>>, k: string): Series<T> {
    if k in days then days[k] else Series(0, 0, [])
  }

  function DayJoiner<T>(e: Element<T>): (map<string, Series<T>>, map<string, Series<T>>) -> map<string, Series<T>> {
    (mine, theirs) => JoinDays(e, mine, theirs)
  }

  /** A measure of the series of one handler, as a measure of whole metrics. */
  ghost function Keyed<T, C>(m: Measure<Series<T>, C>, k: string): Measure<map<string, Series<T>>, C> {
    Measure(days => m.ok(Get(days, k)), days => m.of(Get(days, k)), m.zero, m.plus)
  }

  lemma KeyedLawful<T(!new), C(!new)>(e: Element<T>, m: Measure<Series<T>, C>, k: string)
    requires Lawful(Joiner(e), m)
    requires forall s: Series<T> :: s.segs == [] ==> m.ok(s) && m.of(s) == m.zero
    ensures Lawful(DayJoiner(e), Keyed(m, k))
  {
    forall a, b: map<string, Series<T>> | m.ok(Get(a, k)) && m.ok(Get(b, k))
      ensures var r := Get(DayJoiner(e)(a, b), k);
              m.ok(r) && m.of(r) == m.plus(m.of(Get(a, k)), m.of(Get(b, k)))
    {
      var x, y := Get(a, k), Get(b, k);
      assert m.ok(Joiner(e)(x, y)) && m.of(Joiner(e)(x, y)) == m.plus(m.of(x), m.of(y));
      Laws(m.zero, m.plus, m.of(x), m.of(y), m.zero);
    }
  }

  lemma {:induction false} RunIsFold<T>(
    e: Element<T>, mine: map<string, Series<T>>, inputs: seq<map<string, Series<T>>>)
    ensures Run(e, mine, inputs) == FoldLeft(DayJoiner(e), mine, inputs)
  {
    if inputs != [] {
      var n := |inputs| - 1;
      RunIsFold(e, mine, inputs[..n]);
      FoldLeftSnoc(DayJoiner(e), mine, inputs[..n], inputs[n]);
      assert inputs[..n] + [inputs[n]] == inputs;
    }
  }

  /**
   A receiver that merges the same metrics in another order ends with series that agree handler by
   handler, whatever the interval and grid of each handler.
   */
  lemma {:induction false} RunOrderIrrelevant<T(!new), C(!new)>(
    e: Element<T>, v: Measure<T, C>, interval: int, phase: int, k: string,
    mine: map<string, Series<T>>, xs: seq<map<string, Series<T>>>, ys: seq<map<string, Series<T>>>)
    requires Measures(e, v) && multiset(xs) == multiset(ys)
    requires OnGrid(v, interval, phase, Get(mine, k))
    requires forall x <- xs :: OnGrid(v, interval, phase, Get(x, k))
    ensures Agree(v, Get(Run(e, mine, xs), k), Get(Run(e, mine, ys), k))
  {
    var r, s := Get(Run(e, mine, xs), k), Get(Run(e, mine, ys), k);
    InstantLawful(e, v, interval, phase, 0);
    SameRuns(e, Extent(v, interval, phase), k, mine, xs, ys);
    forall t ensures At(v, r, t) == At(v, s, t) {
      InstantLawful(e, v, interval, phase, t);
      SameRuns(e, Instant(v, interval, phase, t), k, mine, xs, ys);
    }
    SameInstantsAgree(v, interval, phase, r, s);
  }

  lemma {:induction false} SameRuns<T(!new), C(!new)>(
    e: Element<T>, m: Measure<Series<T>, C>, k: string,
    mine: map<string, Series<T>>, xs: seq<map<string, Series<T>>>, ys: seq<map<string, Series<T>>>)
    requires Lawful(Joiner(e), m) && m.ok(Get(mine, k)) && multiset(xs) == multiset(ys)
    requires forall s: Series<T> :: s.segs == [] ==> m.ok(s) && m.of(s) == m.zero
    requires forall x <- xs :: m.ok(Get(x, k))
    ensures m.ok(Get(Run(e, mine, xs), k)) && m.ok(Get(Run(e, mine, ys), k))
    ensures m.of(Get(Run(e, mine, xs), k)) == m.of(Get(Run(e, mine, ys), k))
  {
    var w := Keyed(m, k);
    KeyedLawful(e, m, k);
    forall i | 0 <= i < |ys| ensures w.ok(ys[i]) {
      assert ys[i] in multiset(xs);
    }
    RunIsFold(e, mine, xs);
    RunIsFold(e, mine, ys);
    FoldLeftSum(DayJoiner(e), w, mine, xs);
    FoldLeftSum(DayJoiner(e), w, mine, ys);
    SumPermutation(w, xs, ys);
  }

  // ----- The last minute

  /** The entry of one handler; a missing one reads as the zero element. */
  function Minute<T>(e: Element<T>, m: map<string, T>, k: string): T { if k in m then m[k] else e.zero }

  function MinuteJoiner<T>(e: Element<T>): (map<string, T>, map<string, T>) -> map<string, T> {
    (mine, theirs) => JoinMinutes(e, mine, theirs)
  }

  /** A measure of the entry of one handler, as a measure of whole metrics. */
  ghost function KeyedMinute<T, C>(e: Element<T>, v: Measure<T, C>, k: string): Measure<map<string, T>, C> {
    Measure(m => v.ok(Minute(e, m, k)), m => v.of(Minute(e, m, k)), v.zero, v.plus)
  }

  /** A merge adds up, handler by handler, and has the handlers of both. */
  lemma MinutesAddUp<T(!new), C(!new)>(
    e: Element<T>, v: Measure<T, C>, mine: map<string, T>, theirs: map<string, T>, k: string)
    requires Measures(e, v) && v.ok(Minute(e, mine, k)) && v.ok(Minute(e, theirs, k))
    ensures var r := JoinMinutes(e, mine, theirs);
            && r.Keys == mine.Keys + theirs.Keys && v.ok(Minute(e, r, k))
            && v.of(Minute(e, r, k)) == v.plus(v.of(Minute(e, mine, k)), v.of(Minute(e, theirs, k)))
  {
    var x, y := Minute(e, mine, k), Minute(e, theirs, k);
    assert v.ok(e.add(x, y)) && v.of(e.add(x, y)) == v.plus(v.of(x), v.of(y));
    Laws(v.zero, v.plus, v.of(x), v.of(y), v.zero);
  }

  lemma KeyedMinuteLawful<T(!new), C(!new)>(e: Element<T>, v: Measure<T, C>, k: string)
    requires Measures(e, v)
    ensures Lawful(MinuteJoiner(e), KeyedMinute(e, v, k))
  {
    var w := KeyedMinute(e, v, k);
    forall a, b: map<string, T> | w.ok(a) && w.ok(b)
      ensures w.ok(MinuteJoiner(e)(a, b)) && w.of(MinuteJoiner(e)(a, b)) == w.plus(w.of(a), w.of(b))
    {
      MinutesAddUp(e, v, a, b, k);
    }
  }

  lemma {:induction false} RunMinutesIsFold<T>(e: Element<T>, mine: map<string, T>, minutes: seq<map<string, T>>)
    ensures RunMinutes(e, mine, minutes) == FoldLeft(MinuteJoiner(e), mine, minutes)
  {
    if minutes != [] {
      var n := |minutes| - 1;
      RunMinutesIsFold(e, mine, minutes[..n]);
      FoldLeftSnoc(MinuteJoiner(e), mine, minutes[..n], minutes[n]);
      assert minutes[..n] + [minutes[n]] == minutes;
    }
  }

  /** After any run of merges an entry counts the receiver's and all arguments', once for each time it was merged. */
  lemma {:induction false} RunMinutesTotal<T(!new), C(!new)>(
    e: Element<T>, v: Measure<T, C>, mine: map<string, T>, minutes: seq<map<string, T>>, k: string)
    requires Measures(e, v) && v.ok(Minute(e, mine, k)) && forall m <- minutes :: v.ok(Minute(e, m, k))
    ensures var w, r := KeyedMinute(e, v, k), RunMinutes(e, mine, minutes);
            v.of(Minute(e, r, k)) == v.plus(v.of(Minute(e, mine, k)), Sum(w, minutes))
  {
    var w := KeyedMinute(e, v, k);
    KeyedMinuteLawful(e, v, k);
    RunMinutesIsFold(e, mine, minutes);
    FoldLeftSum(MinuteJoiner(e), w, mine, minutes);
  }

  /** The handlers of a run are those of the receiver and of all arguments. */
  lemma {:induction false} RunKeys<T>(
    e: Element<T>, mine: map<string, T>, minutes: seq<map<string, T>>,
    myDays: map<string, Series<T>>, days: seq<map<string, Series<T>>>, k: string)
    ensures k in RunMinutes(e, mine, minutes) <==> k in mine || exists m <- minutes :: k in m
    ensures k in Run(e, myDays, days) <==> k in myDays || exists d <- days :: k in d
    decreases |minutes| + |days|
  {
    hide Merged;
    if minutes != [] {
      var n := |minutes| - 1;
      RunKeys(e, mine, minutes[..n], myDays, days, k);
      assert minutes == minutes[..n] + [minutes[n]];
    } else if days != [] {
      var n := |days| - 1;
      RunKeys(e, mine, minutes, myDays, days[..n], k);
      assert days == days[..n] + [days[n]];
    }
  }

  /** In another order the arguments leave the same handlers, and entries that measure the same. */
  lemma {:induction false} RunMinutesOrderIrrelevant<T(!new), C(!new)>(
    e: Element<T>, v: Measure<T, C>, k: string,
    mine: map<string, T>, xs: seq<map<string, T>>, ys: seq<map<string, T>>)
    requires Measures(e, v) && multiset(xs) == multiset(ys)
    requires v.ok(Minute(e, mine, k)) && forall m <- xs :: v.ok(Minute(e, m, k))
    ensures k in RunMinutes(e, mine, xs) <==> k in RunMinutes(e, mine, ys)
    ensures v.of(Minute(e, RunMinutes(e, mine, xs), k)) == v.of(Minute(e, RunMinutes(e, mine, ys), k))
  {
    SameMembers(xs, ys);
    SameMembers(ys, xs);
    RunKeys(e, mine, xs, map[], [], k);
    RunKeys(e, mine, ys, map[], [], k);
    RunMinutesTotal(e, v, mine, xs, k);
    RunMinutesTotal(e, v, mine, ys, k);
    SumPermutation(KeyedMinute(e, v, k), xs, ys);
  }

  // ----- Runs that stay within bounds

  /** All stored series lie within these bounds. */
  ghost predicate DaysWithin<T>(days: map<string, Series<T>>, lo: int, hi: int) {
    forall k :: k in days ==> Within(days[k], lo, hi)
  }

  lemma JoinWithin<T>(e: Element<T>, mine: map<string, Series<T>>, theirs: map<string, Series<T>>, lo: int, hi: int)
    requires DaysWithin(mine, lo, hi) && DaysWithin(theirs, lo, hi) && hi - lo <= MAX_DURATION
    ensures MergeableDays(mine, theirs) && DaysWithin(JoinDays(e, mine, theirs), lo, hi)
  {
    hide Within, Mergeable, Merged;
    forall k | k in mine && k in theirs
      ensures Mergeable(mine[k], theirs[k]) && Within(Merged(e, mine[k], theirs[k]), lo, hi)
    {
      MergedWithin(e, mine[k], theirs[k], lo, hi);
    }
  }

  /** If the receiver and all inputs lie within bounds that fit a duration, every run of merges goes through. */
  lemma {:induction false} RunMergeable<T>(
    e: Element<T>, mine: map<string, Series<T>>, inputs: seq<map<string, Series<T>>>, lo: int, hi: int)
    requires DaysWithin(mine, lo, hi) && hi - lo <= MAX_DURATION
    requires forall i :: 0 <= i < |inputs| ==> DaysWithin(inputs[i], lo, hi)
    ensures forall i :: 0 <= i < |inputs| ==> MergeableDays(Run(e, mine, inputs[..i]), inputs[i])
    ensures DaysWithin(Run(e, mine, inputs), lo, hi)
  {
    hide DaysWithin, MergeableDays, JoinDays;
    if inputs != [] {
      var n := |inputs| - 1;
      RunMergeable(e, mine, inputs[..n], lo, hi);
      JoinWithin(e, Run(e, mine, inputs[..n]), inputs[n], lo, hi);
      forall i | 0 <= i < n ensures MergeableDays(Run(e, mine, inputs[..i]), inputs[i]) {
        assert inputs[..n][..i] == inputs[..i] && inputs[..n][i] == inputs[i];
      }
    }
  }
}
