/**
 The totals of RPCMetrics and APIMetrics: merging all handlers by time and adding up the slots
 against adding up every segment of every handler.
 */
module Totals {
  import opened Basics
  import opened Folds
  import opened Segments
  import opened SegmentLaws
  import opened MergeOrder
  import opened Handlers
  import opened Permutations
  import opened Stats

  /** Every visited handler holds a series of this interval, or an empty one. */
  ghost predicate OneInterval<T>(days: map<string, Series<T>>, order: seq<string>, interval: int) {
    forall k <- order :: k in days && (days[k].segs != [] ==> days[k].interval == interval)
  }

  /** `LastDayTotalSegmented().Total()` of the handlers visited in this order. */
  ghost function ByTime<T>(e: Element<T>, days: map<string, Series<T>>, order: seq<string>): T
    requires forall k <- order :: k in days
  {
    FoldLeft(e.add, e.zero, JoinAll(e, Ordered(days, order)).segs)
  }

  /** `LastDayTotal` of the handlers visited in this order. */
  ghost function ByHandler<T>(e: Element<T>, days: map<string, Series<T>>, order: seq<string>): T
    requires forall k <- order :: k in days
  {
    FoldLeft(e.add, e.zero, AllSegments(Ordered(days, order)))
  }

  lemma OrderedAgree<T(!new), C(!new)>(
    e: Element<T>, v: Measure<T, C>, days: map<string, Series<T>>, interval: int, xs: seq<string>, ys: seq<string>)
    requires Measures(e, v) && interval > 0 && multiset(xs) == multiset(ys) && OneInterval(days, xs, interval)
    requires forall k <- xs :: AllOk(v, days[k].segs)
    ensures forall k <- ys :: k in days
    ensures v.of(ByTime(e, days, xs)) == v.of(ByHandler(e, days, ys))
  {
    SameMembers(xs, ys);
    var f := k => if k in days then days[k] else EmptySeries();
    ApplyPermutation(f, xs, ys);
    assert Ordered(days, xs) == Apply(f, xs) && Ordered(days, ys) == Apply(f, ys);
    hide Sum, AllSegments, Ordered, Apply, FoldLeft, JoinAll, Measures;
    TotalsAgree(e, v, interval, Ordered(days, xs), Ordered(days, ys));
  }

  /** RPCMetrics: the two totals agree on every counter, for any two iteration orders of the map. */
  lemma RPCTotalsAgree(days: map<string, Series<RPCStats>>, interval: int, xs: seq<string>, ys: seq<string>)
    requires interval > 0 && multiset(xs) == multiset(ys) && OneInterval(days, xs, interval)
    ensures forall k <- ys :: k in days
    ensures RPCCounters().of(ByTime(RPC, days, xs)) == RPCCounters().of(ByHandler(RPC, days, ys))
  {
    RPCCountersLawful();
    OrderedAgree(RPC, RPCCounters(), days, interval, xs, ys);
  }

  // ----- APIMetrics, which set the node count of what they return

  const NO_BOUNDS: Bounds := Bounds(0.0, 0.0)
  const ZERO_API: APIStats :=
    APIStats(None, None, 0, APITallies().zero.1, Extremes(NO_BOUNDS, NO_BOUNDS, NO_BOUNDS, NO_BOUNDS))
  const API: Element<APIStats> := Element(ZERO_API, AddAPI)

  function WithNodes(s: APIStats, nodes: int): APIStats { s.(tallies := s.tallies.(nodes := nodes)) }

  function AllWithNodes(segs: seq<APIStats>, nodes: int): seq<APIStats> {
    seq(|segs|, i requires 0 <= i < |segs| => WithNodes(segs[i], nodes))
  }

  /** Requests, extremes and every counter but the number of nodes. */
  function APIWork(): Measure<APIStats, ((int, Tallies), Option<Extremes>)> {
    Measure(BusyExtremes().ok,
            (s: APIStats) => (APITallies().of(WithNodes(s, 0)), BusyExtremes().of(s)),
            (APITallies().zero, BusyExtremes().zero),
            (x: ((int, Tallies), Option<Extremes>), y: ((int, Tallies), Option<Extremes>)) =>
              (APITallies().plus(x.0, y.0), BusyExtremes().plus(x.1, y.1)))
  }

  lemma APIWorkLawful()
    ensures Measures(API, APIWork())
  {
    APITalliesLawful();
    ExtremesLawful();
    var m, p, q := APIWork(), APITallies(), BusyExtremes();
    forall a, b, c | Use(a, b, c)
      ensures m.plus(a, m.plus(b, c)) == m.plus(m.plus(a, b), c)
      ensures m.plus(a, b) == m.plus(b, a) && m.plus(a, m.zero) == a
    {
      Laws(p.zero, p.plus, a.0, b.0, c.0);
      Laws(q.zero, q.plus, a.1, b.1, c.1);
    }
  }

  /** `LastDayTotalSegmented().Total()` of an APIMetrics with this many nodes. */
  ghost function APIByTime(nodes: int, days: map<string, Series<APIStats>>, order: seq<string>): APIStats
    requires forall k <- order :: k in days
  {
    FoldLeft(AddAPI, ZERO_API, AllWithNodes(JoinAll(API, Ordered(days, order)).segs, nodes))
  }

  lemma {:induction false} FoldWithNodes(segs: seq<APIStats>, nodes: int)
    requires AllOk(APIWork(), segs)
    ensures var r, s := FoldLeft(AddAPI, ZERO_API, AllWithNodes(segs, nodes)), FoldLeft(AddAPI, ZERO_API, segs);
            && APIWork().ok(r) && APIWork().ok(s)
            && APIWork().of(r) == APIWork().of(s) && r.tallies.nodes == nodes * |segs|
  {
    hide AddAPI, APIWork, WithNodes;
    if segs == [] {
      ZeroOk();
    } else {
      var n := |segs| - 1;
      var front, last := segs[..n], segs[n];
      FoldWithNodes(front, nodes);
      var withNodes, one := AllWithNodes(front, nodes), WithNodes(last, nodes);
      assert segs == front + [last] && AllWithNodes(segs, nodes) == withNodes + [one];
      FoldLeftSnoc(AddAPI, ZERO_API, front, last);
      FoldLeftSnoc(AddAPI, ZERO_API, withNodes, one);
      assert nodes * n + nodes == nodes * (n + 1);
      AddWithNodes(FoldLeft(AddAPI, ZERO_API, withNodes), FoldLeft(AddAPI, ZERO_API, front), last, nodes);
    }
  }

  lemma ZeroOk()
    ensures APIWork().ok(ZERO_API) && ZERO_API.tallies.nodes == 0
  {
  }

  lemma NodesDoNotCount(s: APIStats, nodes: int)
    ensures APIWork().of(WithNodes(s, nodes)) == APIWork().of(s)
  {
    assert WithNodes(WithNodes(s, nodes), 0) == WithNodes(s, 0);
    assert BusyExtremes().of(WithNodes(s, nodes)) == BusyExtremes().of(s);
  }

  lemma AddWithNodes(r: APIStats, s: APIStats, last: APIStats, nodes: int)
    requires var w := APIWork(); w.ok(r) && w.ok(s) && w.ok(last) && w.of(r) == w.of(s)
    ensures var w, x, y := APIWork(), AddAPI(r, WithNodes(last, nodes)), AddAPI(s, last);
            w.ok(x) && w.ok(y) && w.of(x) == w.of(y) && x.tallies.nodes == r.tallies.nodes + nodes
  {
    var w := APIWork();
    APIWorkLawful();
    NodesDoNotCount(last, nodes);
  }

  /**
   APIMetrics: the two totals agree on requests, extremes and every counter but the node count, which
   the total over slots multiplies by the number of slots.
   */
  lemma APITotalsAgree(
    nodes: int, days: map<string, Series<APIStats>>, interval: int, xs: seq<string>, ys: seq<string>)
    requires interval > 0 && multiset(xs) == multiset(ys) && OneInterval(days, xs, interval)
    requires forall k <- xs :: AllOk(BusyExtremes(), days[k].segs)
    ensures forall k <- ys :: k in days
    ensures var slots, total := APIByTime(nodes, days, xs), WithNodes(ByHandler(API, days, ys), nodes);
            && APIWork().of(slots) == APIWork().of(total)
            && slots.tallies.nodes == nodes * |JoinAll(API, Ordered(days, xs)).segs|
            && total.tallies.nodes == nodes
  {
    APIWorkLawful();
    OrderedAgree(API, APIWork(), days, interval, xs, ys);
    var segs := JoinAll(API, Ordered(days, xs)).segs;
    JoinAllOk(days, xs, interval);
    FoldWithNodes(segs, nodes);
    NodesDoNotCount(ByHandler(API, days, ys), nodes);
  }

  lemma {:induction false} JoinAllOk(days: map<string, Series<APIStats>>, order: seq<string>, interval: int)
    requires interval > 0 && OneInterval(days, order, interval)
    requires forall k <- order :: AllOk(BusyExtremes(), days[k].segs)
    ensures AllOk(APIWork(), JoinAll(API, Ordered(days, order)).segs)
  {
    var w := Whole(APIWork(), interval);
    APIWorkLawful();
    WholeLawful(API, APIWork(), interval);
    FoldLeftSum(Joiner(API), w, EmptySeries<APIStats>(), Ordered(days, order));
  }

  /** `APIMetrics.LastDayTotalSegmented`: the merged series, with the node count set in every slot. */
  method LastDayTotalSegmented(
    m: HandlerMetrics<APIStats>, nodes: int, order: seq<string>, ghost lo: int, ghost hi: int)
    returns (res: Segmented<APIStats>)
    requires m.Valid() && hi - lo <= MAX_DURATION
    requires forall i :: 0 <= i < |order| ==> order[i] in m.Days && Within(m.Days[order[i]], lo, hi)
    ensures fresh(res) && fresh(res.segments)
    ensures var joined := JoinAll(API, Ordered(m.Days, order));
            res.Value() == joined.(segs := AllWithNodes(joined.segs, nodes))
    ensures var joined := JoinAll(API, Ordered(m.Days, order)).segs;
            |res.Value().segs| == |joined| && forall k :: 0 <= k < |joined| ==>
              res.Value().segs[k] == joined[k].(tallies := joined[k].tallies.(nodes := nodes))
  {
    res := m.LastDayTotalSegmented(API, order, lo, hi);
    var slots := res.segments;
    ghost var joined, segs := res.Value(), slots[..];
    for i := 0 to slots.Length
      invariant res.segments == slots && res.interval == joined.interval && res.firstTime == joined.first
      invariant forall k :: 0 <= k < |segs| ==> slots[k] == if k < i then WithNodes(segs[k], nodes) else segs[k]
    {
      slots[i] := WithNodes(slots[i], nodes);
    }
    assert slots[..] == AllWithNodes(segs, nodes);
  }

  /** `APIMetrics.LastDayTotal`. */
  method LastDayTotal(m: HandlerMetrics<APIStats>, nodes: int, order: seq<string>) returns (res: APIStats)
    requires m.Valid() && forall i :: 0 <= i < |order| ==> order[i] in m.Days
    ensures res == WithNodes(ByHandler(API, m.Days, order), nodes)
    ensures var sum := ByHandler(API, m.Days, order); res == sum.(tallies := sum.tallies.(nodes := nodes))
  {
    res := m.LastDayTotal(API, order);
    res := WithNodes(res, nodes);
  }

  // ----- Merging the series themselves

  /** These series start at multiples of their own intervals, or are empty. */
  ghost predicate AllAligned<T>(t: Tree<Series<T>>, phase: int) {
    forall s <- t.Leaves() :: s.segs != [] ==> s.interval > 0 && (s.first - phase) % s.Step() == 0
  }

  /**
   Every tree of merges gives series with the same timeline and, slot by slot, the same counters, if and
   only if the series that carry data have one interval.
   */
  lemma {:induction false} RPCSeriesOrderIrrelevant(phase: int, t: Tree<Series<RPCStats>>)
    requires AllAligned(t, phase)
    ensures OrderIrrelevant(RPC, RPCCounters(), t) <==> OneResolution(t.Leaves())
  {
    RPCCountersLawful();
    OrderIrrelevantIff(RPC, RPCCounters(), phase, t);
  }

  /** The same for APIStats, with requests, extremes and all counters but the number of nodes. */
  lemma {:induction false} APISeriesOrderIrrelevant(phase: int, t: Tree<Series<APIStats>>)
    requires AllAligned(t, phase) && forall s <- t.Leaves() :: AllOk(BusyExtremes(), s.segs)
    ensures OrderIrrelevant(API, APIWork(), t) <==> OneResolution(t.Leaves())
  {
    APIWorkLawful();
    hide OrderIrrelevant, OneResolution;
    OrderIrrelevantIff(API, APIWork(), phase, t);
  }
}
