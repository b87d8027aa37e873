/** The elements of the time series: RPCStats and APIStats of metrics.go, and what their merges accumulate. */
module Stats {
  import opened Basics
  import opened Folds

  /** The time range rule both merges share: adopt while empty, drop on disagreement. */
  function MergedTime(mine: Option<int>, requests: int, theirs: Option<int>): Option<int> {
    var adopted := if mine == None && requests == 0 then theirs else mine;
    if adopted.Some? && theirs.Some? && adopted != theirs then None else adopted
  }

  /** One end of a merged range: taken over while nothing was counted, kept unless the other has a different one. */
  predicate Ranged(mine: Option<int>, requests: int, theirs: Option<int>, r: Option<int>) {
    && (mine == None && requests == 0 ==> r == theirs)
    && (mine == None && requests != 0 ==> r == None)
    && (mine.Some? && (theirs == None || theirs == mine) ==> r == mine)
    && (mine.Some? && theirs.Some? && theirs != mine ==> r == None)
  }

  // ----- RPCStats

  datatype RPCStats = RPCStats(
    start: Option<int>, end: Option<int>, wallTimeSecs: real, requests: int, requestTimeSecs: real,
    incomingBytes: int, outgoingBytes: int)

  const ZERO_RPC: RPCStats := RPCStats(None, None, 0.0, 0, 0.0, 0, 0)

  function AddRPC(a: RPCStats, other: RPCStats): RPCStats {
    RPCStats(MergedTime(a.start, a.requests, other.start), MergedTime(a.end, a.requests, other.end),
             a.wallTimeSecs + other.wallTimeSecs, a.requests + other.requests,
             a.requestTimeSecs + other.requestTimeSecs,
             a.incomingBytes + other.incomingBytes, a.outgoingBytes + other.outgoingBytes)
  }

  const RPC: Element<RPCStats> := Element(ZERO_RPC, AddRPC)

  /** `RPCStats.Merge`, field by field in the source's order. */
  method MergeRPC(a: RPCStats, other: RPCStats) returns (r: RPCStats)
    ensures r == AddRPC(a, other)
    ensures Ranged(a.start, a.requests, other.start, r.start) && Ranged(a.end, a.requests, other.end, r.end)
    ensures r.requests == a.requests + other.requests && r.wallTimeSecs == a.wallTimeSecs + other.wallTimeSecs
    ensures r.incomingBytes == a.incomingBytes + other.incomingBytes
    ensures r.outgoingBytes == a.outgoingBytes + other.outgoingBytes
    ensures r.requestTimeSecs == a.requestTimeSecs + other.requestTimeSecs
  {
    r := a;
    if r.start == None && r.requests == 0 {
      r := r.(start := other.start);
    }
    if r.end == None && r.requests == 0 {
      r := r.(end := other.end);
    }
    if r.start.Some? && other.start.Some? && r.start != other.start {
      r := r.(start := None);
    }
    if r.end.Some? && other.end.Some? && r.end != other.end {
      r := r.(end := None);
    }
    r := r.(wallTimeSecs := r.wallTimeSecs + other.wallTimeSecs);
    r := r.(requests := r.requests + other.requests);
    r := r.(incomingBytes := r.incomingBytes + other.incomingBytes);
    r := r.(outgoingBytes := r.outgoingBytes + other.outgoingBytes);
    r := r.(requestTimeSecs := r.requestTimeSecs + other.requestTimeSecs);
  }

  /** All counters of an RPCStats: everything but the time range. */
  datatype Counters = Counters(wall: real, requests: int, time: real, incoming: int, outgoing: int) {
    function Plus(o: Counters): Counters {
      Counters(wall + o.wall, requests + o.requests, time + o.time, incoming + o.incoming, outgoing + o.outgoing)
    }
  }

  function RPCCounters(): Measure<RPCStats, Counters> {
    Measure(_ => true,
            (s: RPCStats) => Counters(s.wallTimeSecs, s.requests, s.requestTimeSecs, s.incomingBytes, s.outgoingBytes),
            Counters(0.0, 0, 0.0, 0, 0), (x: Counters, y: Counters) => x.Plus(y))
  }

  lemma RPCCountersLawful()
    ensures Lawful(RPC.add, RPCCounters()) && RPCCounters().of(RPC.zero) == RPCCounters().zero
  {
  }

  // ----- The time range of a total over all handlers

  /** The total of `LastMinuteTotal`, for one iteration order of the map. */
  function LastMinute(entries: seq<RPCStats>): RPCStats {
    FoldLeft(AddRPC, ZERO_RPC, if Mixed(entries) then Cleaned(entries) else entries)
  }

  predicate Stamped(s: RPCStats) { s.start.Some? || s.end.Some? }

  predicate Mixed(entries: seq<RPCStats>) {
    && (exists i :: 0 <= i < |entries| && Stamped(entries[i]))
    && (exists i :: 0 <= i < |entries| && !Stamped(entries[i]))
  }

  function Cleaned(entries: seq<RPCStats>): seq<RPCStats> {
    seq(|entries|, i requires 0 <= i < |entries| => entries[i].(start := None, end := None))
  }

  method LastMinuteTotal(entries: seq<RPCStats>) returns (res: RPCStats)
    ensures res == LastMinute(entries)
  {
    res := ZERO_RPC;
    var hasTimestamps, hasNilTimestamps := false, false;
    for i := 0 to |entries|
      invariant hasTimestamps <==> exists j :: 0 <= j < i && Stamped(entries[j])
      invariant hasNilTimestamps <==> exists j :: 0 <= j < i && !Stamped(entries[j])
    {
      if entries[i].start.Some? || entries[i].end.Some? {
        hasTimestamps := true;
      } else {
        hasNilTimestamps := true;
      }
    }
    ghost var merged := if Mixed(entries) then Cleaned(entries) else entries;
    for i := 0 to |entries|
      invariant res == FoldLeft(AddRPC, ZERO_RPC, merged[..i])
    {
      var stats := entries[i];
      if hasTimestamps && hasNilTimestamps {
        stats := stats.(start := None, end := None);
      }
      FoldLeftSnoc(AddRPC, ZERO_RPC, merged[..i], merged[i]);
      assert merged[..i + 1] == merged[..i] + [merged[i]];
      res := MergeRPC(res, stats);
    }
    assert merged[..|entries|] == merged;
  }

  /** Every entry counts requests and carries both ends of its range or neither. */
  ghost predicate Active(entries: seq<RPCStats>) {
    forall s <- entries :: s.requests > 0 && (s.start.Some? <==> s.end.Some?)
  }

  /** The one start (end) all entries share, if they do. */
  ghost predicate AllStart(entries: seq<RPCStats>, t: int) { forall s <- entries :: s.start == Some(t) }
  ghost predicate AllEnd(entries: seq<RPCStats>, t: int) { forall s <- entries :: s.end == Some(t) }

  /** All carry a start, or none does. */
  ghost predicate Uniform(entries: seq<RPCStats>) {
    && ((forall s <- entries :: s.start.Some?) || forall s <- entries :: s.start.None?)
    && ((forall s <- entries :: s.end.Some?) || forall s <- entries :: s.end.None?)
  }

  lemma {:induction false} FoldRange(entries: seq<RPCStats>, t: int)
    requires entries != [] && (forall s <- entries :: s.requests > 0) && Uniform(entries)
    ensures var r := FoldLeft(AddRPC, ZERO_RPC, entries);
            && r.requests > 0
            && (r.start == Some(t) <==> AllStart(entries, t)) && (r.end == Some(t) <==> AllEnd(entries, t))
  {
    var n := |entries| - 1;
    var front, last := entries[..n], entries[n];
    assert entries == front + [last];
    FoldLeftSnoc(AddRPC, ZERO_RPC, front, last);
    if n > 0 {
      assert front[0] in entries;
      FoldRange(front, t);
      if last.start.Some? { FoldRange(front, last.start.value); }
      if last.end.Some? { FoldRange(front, last.end.value); }
    }
  }

  /** The total of a non-empty map starts (ends) at t exactly when every entry does. */
  lemma LastMinuteRange(entries: seq<RPCStats>, t: int)
    requires entries != [] && Active(entries)
    ensures LastMinute(entries).start == Some(t) <==> AllStart(entries, t)
    ensures LastMinute(entries).end == Some(t) <==> AllEnd(entries, t)
  {
    if Mixed(entries) {
      var cleaned := Cleaned(entries);
      assert forall i :: 0 <= i < |entries| ==> entries[i] in entries;
      FoldRange(cleaned, t);
      assert cleaned[0] in cleaned;
    } else {
      FoldRange(entries, t);
    }
  }

  lemma {:induction false} LastMinuteCounters(entries: seq<RPCStats>)
    ensures RPCCounters().of(LastMinute(entries)) == Sum(RPCCounters(), entries)
  {
    var c := RPCCounters();
    RPCCountersLawful();
    FoldLeftSum(AddRPC, c, ZERO_RPC, if Mixed(entries) then Cleaned(entries) else entries);
    SumCleaned(entries);
  }

  lemma {:induction false} SumCleaned(entries: seq<RPCStats>)
    ensures Sum(RPCCounters(), Cleaned(entries)) == Sum(RPCCounters(), entries)
  {
    if entries != [] {
      assert Cleaned(entries)[1..] == Cleaned(entries[1..]);
      SumCleaned(entries[1..]);
    }
  }

  // ----- APIStats

  datatype Bounds = Bounds(lo: real, hi: real) {
    function Join(o: Bounds): Bounds {
      Bounds(if o.lo < lo then o.lo else lo, if hi < o.hi then o.hi else hi)
    }
  }

  datatype Kind = RequestTime | ReqRead | Resp | RespTTFB

  /** The four min/max pairs of an APIStats. */
  datatype Extremes = Extremes(requestTime: Bounds, reqRead: Bounds, resp: Bounds, respTTFB: Bounds) {
    function Join(o: Extremes): Extremes {
      Extremes(requestTime.Join(o.requestTime), reqRead.Join(o.reqRead), resp.Join(o.resp), respTTFB.Join(o.respTTFB))
    }

    function At(k: Kind): Bounds {
      match k case RequestTime => requestTime case ReqRead => reqRead case Resp => resp case RespTTFB => respTTFB
    }
  }

  datatype Rejected = Rejected(auth: int, requestsTime: int, header: int, invalid: int, notImplemented: int) {
    function Plus(o: Rejected): Rejected {
      Rejected(auth + o.auth, requestsTime + o.requestsTime, header + o.header, invalid + o.invalid,
               notImplemented + o.notImplemented)
    }
  }

  /** The counters that merging only adds up. */
  datatype Tallies = Tallies(
    nodes: int, wallTimeSecs: real, incomingBytes: int, outgoingBytes: int, errors4xx: int, errors5xx: int,
    canceled: int, requestTimeSecs: real, reqReadSecs: real, respSecs: real, respTTFBSecs: real,
    readBlockedSecs: real, writeBlockedSecs: real, rejected: Rejected)
  {
    function Plus(o: Tallies): Tallies {
      Tallies(nodes + o.nodes, wallTimeSecs + o.wallTimeSecs, incomingBytes + o.incomingBytes,
              outgoingBytes + o.outgoingBytes, errors4xx + o.errors4xx, errors5xx + o.errors5xx,
              canceled + o.canceled, requestTimeSecs + o.requestTimeSecs, reqReadSecs + o.reqReadSecs,
              respSecs + o.respSecs, respTTFBSecs + o.respTTFBSecs, readBlockedSecs + o.readBlockedSecs,
              writeBlockedSecs + o.writeBlockedSecs, rejected.Plus(o.rejected))
    }
  }

  /** Every single counter adds up. */
  predicate AddsUp(a: Tallies, b: Tallies, r: Tallies) {
    && r.nodes == a.nodes + b.nodes && r.wallTimeSecs == a.wallTimeSecs + b.wallTimeSecs
    && r.incomingBytes == a.incomingBytes + b.incomingBytes && r.outgoingBytes == a.outgoingBytes + b.outgoingBytes
    && r.errors4xx == a.errors4xx + b.errors4xx && r.errors5xx == a.errors5xx + b.errors5xx
    && r.canceled == a.canceled + b.canceled && r.requestTimeSecs == a.requestTimeSecs + b.requestTimeSecs
    && r.reqReadSecs == a.reqReadSecs + b.reqReadSecs && r.respSecs == a.respSecs + b.respSecs
    && r.respTTFBSecs == a.respTTFBSecs + b.respTTFBSecs
    && r.readBlockedSecs == a.readBlockedSecs + b.readBlockedSecs
    && r.writeBlockedSecs == a.writeBlockedSecs + b.writeBlockedSecs
    && r.rejected.auth == a.rejected.auth + b.rejected.auth
    && r.rejected.requestsTime == a.rejected.requestsTime + b.rejected.requestsTime
    && r.rejected.header == a.rejected.header + b.rejected.header
    && r.rejected.invalid == a.rejected.invalid + b.rejected.invalid
    && r.rejected.notImplemented == a.rejected.notImplemented + b.rejected.notImplemented
  }

  /** The least interval that contains both. */
  predicate Spans(a: Bounds, b: Bounds, r: Bounds) {
    && r.lo <= a.lo && r.lo <= b.lo && (r.lo == a.lo || r.lo == b.lo)
    && a.hi <= r.hi && b.hi <= r.hi && (r.hi == a.hi || r.hi == b.hi)
  }

  datatype APIStats = APIStats(
    start: Option<int>, end: Option<int>, requests: int, tallies: Tallies, extremes: Extremes)

  /** Only inputs that saw requests contribute to the minima and maxima. */
  function AddAPI(a: APIStats, other: APIStats): APIStats {
    APIStats(MergedTime(a.start, a.requests, other.start), MergedTime(a.end, a.requests, other.end),
             a.requests + other.requests, a.tallies.Plus(other.tallies),
             if other.requests == 0 then a.extremes
             else if a.requests == 0 then other.extremes
             else a.extremes.Join(other.extremes))
  }

  /**
   `APIStats.Merge`: the emptiness tests run after `a.Requests` was increased, and one of the two
   operands stands in for an empty other.
   */
  method MergeAPI(a: APIStats, other: APIStats) returns (r: APIStats)
    ensures r == AddAPI(a, other)
  {
    r := a;
    if r.start == None && r.requests == 0 {
      r := r.(start := other.start);
    }
    if r.end == None && r.requests == 0 {
      r := r.(end := other.end);
    }
    if r.start.Some? && other.start.Some? && r.start != other.start {
      r := r.(start := None);
    }
    if r.end.Some? && other.end.Some? && r.end != other.end {
      r := r.(end := None);
    }
    r := r.(requests := r.requests + other.requests, tallies := r.tallies.Plus(other.tallies));
    if r.requests == 0 && other.requests == 0 {
      return;
    }
    var at, bt := r, other;
    if r.requests == other.requests {
      at := bt;
    }
    if other.requests == 0 {
      bt := at;
    }
    r := r.(extremes := at.extremes.Join(bt.extremes));
  }

  /** What becomes of every field: counters add up, and only operands that saw requests have extremes. */
  lemma AddAPIFields(a: APIStats, other: APIStats)
    ensures var r := AddAPI(a, other);
            && Ranged(a.start, a.requests, other.start, r.start) && Ranged(a.end, a.requests, other.end, r.end)
            && r.requests == a.requests + other.requests && AddsUp(a.tallies, other.tallies, r.tallies)
            && (other.requests == 0 ==> r.extremes == a.extremes)
            && (a.requests == 0 && other.requests != 0 ==> r.extremes == other.extremes)
            && (a.requests != 0 && other.requests != 0 ==>
                  forall k: Kind :: Spans(a.extremes.At(k), other.extremes.At(k), r.extremes.At(k)))
  {
  }

  /** The extremes of the inputs that saw requests, if any did. */
  function BusyExtremes(): Measure<APIStats, Option<Extremes>> {
    Measure((s: APIStats) => s.requests >= 0,
            (s: APIStats) => if s.requests == 0 then None else Some(s.extremes),
            None,
            (x: Option<Extremes>, y: Option<Extremes>) =>
              if x.None? then y else if y.None? then x else Some(x.value.Join(y.value)))
  }

  lemma JoinLaws(a: Extremes, b: Extremes, c: Extremes)
    ensures a.Join(b.Join(c)) == a.Join(b).Join(c) && a.Join(b) == b.Join(a)
  {
  }

  lemma ExtremesLawful()
    ensures Lawful(AddAPI, BusyExtremes())
  {
    var m := BusyExtremes();
    forall a, b, c | Use(a, b, c)
      ensures m.plus(a, m.plus(b, c)) == m.plus(m.plus(a, b), c)
      ensures m.plus(a, b) == m.plus(b, a) && m.plus(a, m.zero) == a
    {
      if a.Some? && b.Some? {
        JoinLaws(a.value, b.value, if c.Some? then c.value else a.value);
      }
      hide Extremes.Join;
    }
  }

  /** The counters of an APIStats with its number of requests. */
  function APITallies(): Measure<APIStats, (int, Tallies)> {
    Measure(_ => true, (s: APIStats) => (s.requests, s.tallies),
            (0, Tallies(0, 0.0, 0, 0, 0, 0, 0, 0.0, 0.0, 0.0, 0.0, 0.0, 0.0, Rejected(0, 0, 0, 0, 0))),
            (x: (int, Tallies), y: (int, Tallies)) => (x.0 + y.0, x.1.Plus(y.1)))
  }

  lemma APITalliesLawful()
    ensures Lawful(AddAPI, APITallies())
  {
    var m := APITallies();
    forall a, b, c | Use(a, b, c)
      ensures m.plus(a, m.plus(b, c)) == m.plus(m.plus(a, b), c)
      ensures m.plus(a, b) == m.plus(b, a) && m.plus(a, m.zero) == a
    {
      TalliesAddUp(a.1, b.1, c.1);
    }
  }

  lemma TalliesAddUp(a: Tallies, b: Tallies, c: Tallies)
    ensures a.Plus(b.Plus(c)) == a.Plus(b).Plus(c) && a.Plus(b) == b.Plus(a)
  {
  }

  /** b bounds the k-th extremes of the busy inputs, and both ends are reached. */
  ghost predicate Tight(b: Bounds, k: Kind, xs: seq<APIStats>) {
    && (forall x <- xs | x.requests > 0 :: b.lo <= x.extremes.At(k).lo && x.extremes.At(k).hi <= b.hi)
    && (exists x <- xs :: x.requests > 0 && x.extremes.At(k).lo == b.lo)
    && (exists x <- xs :: x.requests > 0 && x.extremes.At(k).hi == b.hi)
  }

  /** One more input joins the extremes of the others. */
  lemma TightMore(b: Bounds, k: Kind, x: APIStats, xs: seq<APIStats>)
    requires Tight(b, k, xs) && x.requests >= 0
    ensures Tight(if x.requests == 0 then b else x.extremes.At(k).Join(b), k, [x] + xs)
  {
    var all := [x] + xs;
    assert x in all && forall y <- xs :: y in all;
    var low :| low in xs && low.requests > 0 && low.extremes.At(k).lo == b.lo;
    var high :| high in xs && high.requests > 0 && high.extremes.At(k).hi == b.hi;
    assert low in all && high in all;
  }

  lemma TightOne(k: Kind, x: APIStats, xs: seq<APIStats>)
    requires x.requests > 0 && forall y <- xs :: y.requests == 0
    ensures Tight(x.extremes.At(k), k, [x] + xs)
  {
    assert x in [x] + xs;
  }

  /** These are the extremes of the busy inputs, if there are any. */
  ghost predicate TightIfAny(rest: Option<Extremes>, k: Kind, xs: seq<APIStats>) {
    && (rest.None? <==> forall x <- xs :: x.requests == 0)
    && (rest.Some? ==> Tight(rest.value.At(k), k, xs))
  }

  lemma TightSum(rest: Option<Extremes>, k: Kind, x: APIStats, others: seq<APIStats>)
    requires x.requests >= 0 && TightIfAny(rest, k, others)
    ensures TightIfAny(BusyExtremes().plus(BusyExtremes().of(x), rest), k, [x] + others)
  {
    assert x in [x] + others && forall y <- others :: y in [x] + others;
    hide Tight;
    if rest.Some? {
      TightMore(rest.value.At(k), k, x, others);
    } else if x.requests > 0 {
      TightOne(k, x, others);
    }
  }

  lemma {:induction false} SumTight(xs: seq<APIStats>, k: Kind)
    requires forall x <- xs :: x.requests >= 0
    ensures TightIfAny(Sum(BusyExtremes(), xs), k, xs)
  {
    if xs != [] {
      hide TightIfAny, BusyExtremes;
      assert xs == [xs[0]] + xs[1..] && xs[0] in xs && forall y <- xs[1..] :: y in xs;
      SumTight(xs[1..], k);
      TightSum(Sum(BusyExtremes(), xs[1..]), k, xs[0], xs[1..]);
    }
  }

  /**
   Merging APIStats in any tree gives the true minimum and maximum over exactly the inputs that saw
   requests; if none did, the receiver keeps what it had.
   */
  lemma {:induction false} TreeExtremes(t: Tree<APIStats>, k: Kind)
    requires forall x <- t.Leaves() :: x.requests >= 0
    ensures (exists x <- t.Leaves() :: x.requests > 0) ==> Tight(t.Eval(AddAPI).extremes.At(k), k, t.Leaves())
    ensures (forall x <- t.Leaves() :: x.requests == 0) ==> t.Eval(AddAPI).extremes == t.Leaves()[0].extremes
  {
    ExtremesLawful();
    TreeSum(AddAPI, BusyExtremes(), t);
    SumTight(t.Leaves(), k);
    if forall x <- t.Leaves() :: x.requests == 0 {
      IdleTree(t);
    }
  }

  lemma {:induction false} IdleTree(t: Tree<APIStats>)
    requires forall x <- t.Leaves() :: x.requests == 0
    ensures t.Eval(AddAPI).requests == 0 && t.Eval(AddAPI).extremes == t.Leaves()[0].extremes
  {
    match t
    case Leaf(x) => assert x in t.Leaves();
    case Node(l, r) =>
      assert forall x <- l.Leaves() :: x in t.Leaves();
      assert forall x <- r.Leaves() :: x in t.Leaves();
      IdleTree(l);
      IdleTree(r);
  }
}
