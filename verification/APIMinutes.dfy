/** `APIMetrics.LastMinuteTotal`, which merges all entries as they are: exactly when their order does not matter. */
module APIMinutes {
  import opened Basics
  import opened Folds
  import opened Permutations
  import opened Clocks
  import opened ClockOrder
  import opened SegmentLaws
  import opened Stats
  import opened Totals

  /** The total of these entries, in the order in which the map is visited. */
  function APILastMinute(entries: seq<APIStats>, nodes: int): APIStats {
    WithNodes(FoldLeft(AddAPI, ZERO_API, entries), nodes)
  }

  method LastMinuteTotal(entries: seq<APIStats>, nodes: int) returns (res: APIStats)
    ensures res == APILastMinute(entries, nodes)
    ensures var sum := FoldLeft(AddAPI, ZERO_API, entries); res == sum.(tallies := sum.tallies.(nodes := nodes))
  {
    res := ZERO_API;
    for i := 0 to |entries|
      invariant res == FoldLeft(AddAPI, ZERO_API, entries[..i])
    {
      FoldLeftSnoc(AddAPI, ZERO_API, entries[..i], entries[i]);
      assert entries[..i + 1] == entries[..i] + [entries[i]];
      res := MergeAPI(res, entries[i]);
    }
    assert entries[..|entries|] == entries;
    res := WithNodes(res, nodes);
  }

  function StartOf(s: APIStats): Stamp { Stamp(s.start, s.requests != 0) }
  function EndOf(s: APIStats): Stamp { Stamp(s.end, s.requests != 0) }

  ghost predicate Counted(entries: seq<APIStats>) {
    forall i :: 0 <= i < |entries| ==> entries[i].requests >= 0
  }

  lemma AddSteps(r: APIStats, last: APIStats)
    requires r.requests >= 0 && last.requests >= 0 && (r.requests == 0 ==> r.extremes == ZERO_API.extremes)
    ensures var s := AddAPI(r, last);
            && s.requests >= 0 && (s.requests == 0 ==> s.extremes == ZERO_API.extremes)
            && StartOf(s) == Step(StartOf(r), StartOf(last)) && EndOf(s) == Step(EndOf(r), EndOf(last))
  {
  }

  /** Both ends of the range follow the one rule; the extremes of idle entries are never taken. */
  lemma {:induction false} TotalFollows(entries: seq<APIStats>)
    requires Counted(entries)
    ensures var r := FoldLeft(AddAPI, ZERO_API, entries);
            && r.requests >= 0 && (r.requests == 0 ==> r.extremes == ZERO_API.extremes)
            && StartOf(r) == Follow(Apply(StartOf, entries)) && EndOf(r) == Follow(Apply(EndOf, entries))
  {
    hide AddAPI, Step;
    if entries != [] {
      var n := |entries| - 1;
      var front, last := entries[..n], entries[n];
      TotalFollows(front);
      AddSteps(FoldLeft(AddAPI, ZERO_API, front), last);
      assert entries == front + [last];
      FoldLeftSnoc(AddAPI, ZERO_API, front, last);
      assert Apply(StartOf, entries)[..n] == Apply(StartOf, front);
      assert Apply(EndOf, entries)[..n] == Apply(EndOf, front);
    }
  }

  /** Everything but the range is the same for every order. */
  lemma WorkPermutes(xs: seq<APIStats>, ys: seq<APIStats>, nodes: int)
    requires Counted(xs) && Counted(ys) && multiset(xs) == multiset(ys)
    ensures APILastMinute(ys, nodes) ==
      APILastMinute(xs, nodes).(start := APILastMinute(ys, nodes).start, end := APILastMinute(ys, nodes).end)
  {
    var r, s := FoldLeft(AddAPI, ZERO_API, xs), FoldLeft(AddAPI, ZERO_API, ys);
    APIWorkLawful();
    ZeroOk();
    TotalFollows(xs);
    TotalFollows(ys);
    FoldLeftSum(AddAPI, APIWork(), ZERO_API, xs);
    FoldLeftSum(AddAPI, APIWork(), ZERO_API, ys);
    SumPermutation(APIWork(), xs, ys);
    assert APIWork().of(r) == APIWork().of(s);
    hide AddAPI, Follow;
    SameWork(r, s, nodes);
  }

  lemma SameWork(r: APIStats, s: APIStats, nodes: int)
    requires APIWork().of(r) == APIWork().of(s)
    requires r.requests == 0 ==> r.extremes == s.extremes
    ensures WithNodes(s, nodes) == WithNodes(r, nodes).(start := s.start, end := s.end)
  {
    assert APITallies().of(WithNodes(r, 0)) == APITallies().of(WithNodes(s, 0));
    assert BusyExtremes().of(r) == BusyExtremes().of(s);
  }

  /** The total is the same for every order of these entries. */
  ghost predicate OrderFree(xs: seq<APIStats>, nodes: int) {
    forall ys :: multiset(ys) == multiset(xs) ==> APILastMinute(ys, nodes) == APILastMinute(xs, nodes)
  }

  lemma Reordered(xs: seq<APIStats>, ys: seq<APIStats>)
    requires Counted(xs) && multiset(ys) == multiset(xs)
    ensures Counted(ys)
  {
    SameMembers(xs, ys);
    assert forall i :: 0 <= i < |ys| ==> ys[i] in xs;
  }

  lemma SettledSame(xs: seq<APIStats>, ys: seq<APIStats>, nodes: int)
    requires Counted(xs) && multiset(ys) == multiset(xs)
    requires Settled(TallyOf(Apply(StartOf, xs))) && Settled(TallyOf(Apply(EndOf, xs)))
    ensures APILastMinute(ys, nodes) == APILastMinute(xs, nodes)
  {
    hide AddAPI, Settled, TallyOf, Follow, Counted;
    Reordered(xs, ys);
    WorkPermutes(xs, ys, nodes);
    TotalFollows(xs);
    TotalFollows(ys);
    ApplyPermutation(StartOf, xs, ys);
    ApplyPermutation(EndOf, xs, ys);
    SettledFree(Apply(StartOf, xs), Apply(StartOf, ys));
    SettledFree(Apply(EndOf, xs), Apply(EndOf, ys));
  }

  /** Two orders of the starts, or of the ends, that end differently are orders of the entries. */
  lemma Lifted(xs: seq<APIStats>, f: APIStats -> Stamp, nodes: int)
    requires Counted(xs) && !Settled(TallyOf(Apply(f, xs))) && (f == StartOf || f == EndOf)
    ensures !OrderFree(xs, nodes)
  {
    hide AddAPI, Settled, TallyOf, Follow, Counted;
    var p, q := UnsettledDiffers(Apply(f, xs));
    var ys := LiftPermutation(f, xs, p);
    var zs := LiftPermutation(f, xs, q);
    Reordered(xs, ys);
    Reordered(xs, zs);
    TotalFollows(ys);
    TotalFollows(zs);
    assert APILastMinute(ys, nodes) != APILastMinute(zs, nodes);
  }

  /**
   The whole total is the same for every order of the entries if and only if starts and ends are settled:
   unlike `RPCMetrics`, this one does not drop timestamps that only some entries have.
   */
  lemma APILastMinuteOrderIff(xs: seq<APIStats>, nodes: int)
    requires forall s <- xs :: s.requests >= 0
    ensures OrderFree(xs, nodes)
        <==> Settled(TallyOf(Apply(StartOf, xs))) && Settled(TallyOf(Apply(EndOf, xs)))
  {
    assert forall i :: 0 <= i < |xs| ==> xs[i] in xs;
    hide APILastMinute, Settled, TallyOf;
    if Settled(TallyOf(Apply(StartOf, xs))) && Settled(TallyOf(Apply(EndOf, xs))) {
      forall ys: seq<APIStats> | multiset(ys) == multiset(xs)
        ensures APILastMinute(ys, nodes) == APILastMinute(xs, nodes)
      {
        SettledSame(xs, ys, nodes);
      }
    } else if !Settled(TallyOf(Apply(StartOf, xs))) {
      Lifted(xs, StartOf, nodes);
    } else {
      Lifted(xs, EndOf, nodes);
    }
  }
}
