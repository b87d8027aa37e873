/** Exactly when the total of `LastMinuteTotal` does not depend on the iteration order of the map. */
module LastMinutes {
  import opened Basics
  import opened Folds
  import opened Permutations
  import opened Clocks
  import opened ClockOrder
  import opened Stats

  /** The start of an entry, and whether it counts requests; likewise its end. */
  function StartOf(s: RPCStats): Stamp { Stamp(s.start, s.requests != 0) }
  function EndOf(s: RPCStats): Stamp { Stamp(s.end, s.requests != 0) }

  ghost predicate Counted(entries: seq<RPCStats>) {
    forall i :: 0 <= i < |entries| ==> entries[i].requests >= 0
  }

  /** Both ends of the range of a total follow the one rule. */
  lemma {:induction false} TotalFollows(entries: seq<RPCStats>)
    requires Counted(entries)
    ensures var r := FoldLeft(AddRPC, ZERO_RPC, entries);
            && r.requests >= 0 && StartOf(r) == Follow(Apply(StartOf, entries))
            && EndOf(r) == Follow(Apply(EndOf, entries))
  {
    if entries != [] {
      var n := |entries| - 1;
      var front, last := entries[..n], entries[n];
      TotalFollows(front);
      assert entries == front + [last];
      FoldLeftSnoc(AddRPC, ZERO_RPC, front, last);
      assert Apply(StartOf, entries)[..n] == Apply(StartOf, front);
      assert Apply(EndOf, entries)[..n] == Apply(EndOf, front);
    }
  }

  lemma MixedPermutes(xs: seq<RPCStats>, ys: seq<RPCStats>)
    requires multiset(xs) == multiset(ys)
    ensures Mixed(xs) ==> Mixed(ys)
  {
    SameMembers(ys, xs);
    if Mixed(xs) {
      var i :| 0 <= i < |xs| && Stamped(xs[i]);
      var j :| 0 <= j < |xs| && !Stamped(xs[j]);
      assert xs[i] in ys && xs[j] in ys;
    }
  }

  /** With mixed timestamps the total has none. */
  lemma {:induction false} MixedEnds(entries: seq<RPCStats>)
    requires Mixed(entries)
    ensures LastMinute(entries).start == None && LastMinute(entries).end == None
  {
    NoStamps(Cleaned(entries));
  }

  lemma {:induction false} NoStamps(entries: seq<RPCStats>)
    requires forall i :: 0 <= i < |entries| ==> entries[i].start == None && entries[i].end == None
    ensures var r := FoldLeft(AddRPC, ZERO_RPC, entries); r.start == None && r.end == None
  {
    if entries != [] {
      var n := |entries| - 1;
      NoStamps(entries[..n]);
      FoldLeftSnoc(AddRPC, ZERO_RPC, entries[..n], entries[n]);
      assert entries == entries[..n] + [entries[n]];
    }
  }

  /** If some entries have a start or an end and some have neither, the total has neither. */
  lemma MixedHaveNone(entries: seq<RPCStats>, s: RPCStats, t: RPCStats)
    requires s in entries && t in entries && (s.start.Some? || s.end.Some?) && t.start == t.end == None
    ensures LastMinute(entries).start == LastMinute(entries).end == None
  {
    var i :| 0 <= i < |entries| && entries[i] == s;
    var j :| 0 <= j < |entries| && entries[j] == t;
    assert Stamped(entries[i]) && !Stamped(entries[j]);
    MixedEnds(entries);
  }

  /** Otherwise it is that of the entries as they are; without entries it is the zero value. */
  lemma {:induction false} OthersAsTheyAre(entries: seq<RPCStats>)
    requires (forall s <- entries :: s.start.Some? || s.end.Some?) || forall s <- entries :: s.start == s.end == None
    ensures LastMinute(entries) == FoldLeft(AddRPC, ZERO_RPC, entries)
    ensures LastMinute([]) == RPCStats(None, None, 0.0, 0, 0.0, 0, 0)
  {
    assert forall i :: 0 <= i < |entries| ==> entries[i] in entries;
  }

  /** The total is the same for every order of these entries. */
  ghost predicate OrderFree(xs: seq<RPCStats>) {
    forall ys :: multiset(ys) == multiset(xs) ==> LastMinute(ys) == LastMinute(xs)
  }

  /** What a caller may check: starts and ends are settled, or some entries have timestamps and some have not. */
  ghost predicate Orderly(xs: seq<RPCStats>) {
    Mixed(xs) || (Settled(TallyOf(Apply(StartOf, xs))) && Settled(TallyOf(Apply(EndOf, xs))))
  }

  lemma OrderlySame(xs: seq<RPCStats>, ys: seq<RPCStats>)
    requires Counted(xs) && Orderly(xs) && multiset(ys) == multiset(xs)
    ensures LastMinute(ys) == LastMinute(xs)
  {
    MixedPermutes(xs, ys);
    MixedPermutes(ys, xs);
    LastMinuteCounters(xs);
    LastMinuteCounters(ys);
    SumPermutation(RPCCounters(), xs, ys);
    if Mixed(xs) {
      MixedEnds(xs);
      MixedEnds(ys);
    } else {
      SameMembers(xs, ys);
      assert forall i :: 0 <= i < |ys| ==> ys[i] in xs;
      hide AddRPC, Settled, TallyOf, Follow;
      TotalFollows(xs);
      TotalFollows(ys);
      ApplyPermutation(StartOf, xs, ys);
      ApplyPermutation(EndOf, xs, ys);
      SettledFree(Apply(StartOf, xs), Apply(StartOf, ys));
      SettledFree(Apply(EndOf, xs), Apply(EndOf, ys));
    }
  }

  /** Two orders of the starts, or of the ends, that end differently are orders of the entries. */
  lemma Lifted(xs: seq<RPCStats>, f: RPCStats -> Stamp)
    requires Counted(xs) && !Mixed(xs) && !Settled(TallyOf(Apply(f, xs))) && (f == StartOf || f == EndOf)
    ensures !OrderFree(xs)
  {
    var p, q := UnsettledDiffers(Apply(f, xs));
    var ys := LiftPermutation(f, xs, p);
    var zs := LiftPermutation(f, xs, q);
    MixedPermutes(ys, xs);
    MixedPermutes(zs, xs);
    SameMembers(xs, ys);
    SameMembers(xs, zs);
    assert forall i :: 0 <= i < |ys| ==> ys[i] in xs;
    assert forall i :: 0 <= i < |zs| ==> zs[i] in xs;
    hide AddRPC, Settled, TallyOf, Follow;
    TotalFollows(ys);
    TotalFollows(zs);
    assert LastMinute(ys) != LastMinute(zs);
  }

  /** The total is independent of the order if and only if the entries are orderly. */
  lemma LastMinuteOrderIff(xs: seq<RPCStats>)
    requires forall s <- xs :: s.requests >= 0
    ensures OrderFree(xs) <==> Orderly(xs)
  {
    assert forall i :: 0 <= i < |xs| ==> xs[i] in xs;
    hide LastMinute, Settled, TallyOf;
    if Orderly(xs) {
      forall ys: seq<RPCStats> | multiset(ys) == multiset(xs) ensures LastMinute(ys) == LastMinute(xs) {
        OrderlySame(xs, ys);
      }
    } else if !Settled(TallyOf(Apply(StartOf, xs))) {
      Lifted(xs, StartOf);
    } else {
      Lifted(xs, EndOf);
    }
  }

  /** Requests alone do not help: a busy entry without a start, merged first, hides the start of another. */
  lemma BusyOrderShows()
    ensures var x := RPCStats(None, Some(9), 0.0, 1, 0.0, 0, 0);
            var y := RPCStats(Some(5), Some(9), 0.0, 1, 0.0, 0, 0);
            LastMinute([x, y]).start == None && LastMinute([y, x]).start == Some(5)
  {
    var x, y := RPCStats(None, Some(9), 0.0, 1, 0.0, 0, 0), RPCStats(Some(5), Some(9), 0.0, 1, 0.0, 0, 0);
    FoldLeftSnoc(AddRPC, ZERO_RPC, [x], y);
    FoldLeftSnoc(AddRPC, ZERO_RPC, [y], x);
    assert [x] + [y] == [x, y] && [y] + [x] == [y, x] && [x][1..] == [] && [y][1..] == [];
  }
}
