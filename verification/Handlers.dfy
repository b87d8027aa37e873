/**
 Per-handler metrics: the maps `LastMinute` and `LastDay` of RPCMetrics and APIMetrics, whose two
 `Merge` methods treat them alike.  Later merges update stored series in place, so each stored
 series must own its segments: this is what `Valid` and the frame of `Merge` keep.
 */
module Handlers {
  import opened Folds
  import opened Segments

  class HandlerMetrics<T> {
    var lastMinute: map<string, T>
    var lastDay: map<string, Stored<T>>

    /** The stored series as values. */
    ghost var Days: map<string, Series<T>>
    /** The segment arrays of the stored series: with this object, all that a later merge may write. */
    ghost var Repr: set<object>

    ghost predicate Valid()
      reads this, Repr
    {
      && this !in Repr && lastDay.Keys == Days.Keys && Owns(lastDay.Keys)
    }

    /** The series stored under these keys are owned, not shared, and have the values `Days` says. */
    ghost predicate Owns(keys: set<string>)
      requires keys <= lastDay.Keys && keys <= Days.Keys
      reads this, Repr
    {
      && (forall k :: k in keys ==> lastDay[k].segments in Repr && lastDay[k].Value() == Days[k])
      && forall j, k :: j in keys && k in keys && j != k ==> lastDay[j].segments != lastDay[k].segments
    }

    /** Nothing that one of the two may write belongs to the other. */
    ghost predicate Apart(other: HandlerMetrics<T>)
      reads this, other
    {
      this != other && this !in other.Repr && other !in Repr && Repr !! other.Repr
    }

    /** The zero value. */
    constructor ()
      ensures Valid() && fresh(Repr) && lastMinute == map[] && Days == map[]
    {
      lastMinute, lastDay, Days, Repr := map[], map[], map[], {};
    }

    /**
     Only the receiver changes, and what it stores shares nothing with the argument; an object can also be
     merged into itself.
     */
    method Merge(e: Element<T>, other: HandlerMetrics?<T>)
      requires Valid()
      requires other != null ==>
        other.Valid() && (other == this || Apart(other)) && MergeableDays(Days, other.Days)
      modifies this, Repr
      ensures Valid() && fresh(Repr - old(Repr))
      ensures other == null ==> lastMinute == old(lastMinute) && Days == old(Days)
      ensures other != null ==>
        && lastMinute == JoinMinutes(e, old(lastMinute), old(other.lastMinute))
        && Days == JoinDays(e, old(Days), old(other.Days))
      ensures other != null ==>
        && lastMinute.Keys == old(lastMinute.Keys) + old(other.lastMinute.Keys)
        && Days.Keys == old(Days.Keys) + old(other.Days.Keys)
      ensures other != null ==> forall k ::
        && (k in old(lastMinute) && k !in old(other.lastMinute) ==> lastMinute[k] == old(lastMinute)[k])
        && (k in old(lastMinute) && k in old(other.lastMinute) ==>
              lastMinute[k] == e.add(old(lastMinute)[k], old(other.lastMinute)[k]))
        && (k !in old(lastMinute) && k in old(other.lastMinute) ==>
              lastMinute[k] == e.add(e.zero, old(other.lastMinute)[k]))
        && (k in old(Days) && k !in old(other.Days) ==> Days[k] == old(Days)[k])
        && (k in old(Days) && k in old(other.Days) ==>
              AddOutcome(e, old(Days)[k], old(other.Days)[k]) == Gives(Days[k]))
        && (k in old(other.Days) && k !in old(Days) ==> Days[k] == old(other.Days)[k])
      ensures other != null && other != this ==>
        && Apart(other) && other.Valid()
        && other.lastMinute == old(other.lastMinute) && other.Days == old(other.Days)
    {
      hide Merged, AddOutcome;
      if other != null {
        ghost var mine, theirs := Days, other.Days;
        MergeMinutes(e, other);
        MergeDays(e, other);
        forall k | k in mine && k in theirs ensures AddOutcome(e, mine[k], theirs[k]) == Gives(Days[k]) {
          AddMerged(e, mine[k], theirs[k]);
        }
      }
    }

    /**
     Any run of merges into one receiver leaves every argument as it was and owning its own segments,
     although later merges update stored series in place.  The same argument may occur repeatedly.
     */
    method MergeRun(
      e: Element<T>, others: seq<HandlerMetrics<T>>,
      ghost inputs: seq<map<string, Series<T>>>, ghost minutes: seq<map<string, T>>)
      requires Valid() && |inputs| == |minutes| == |others|
      requires forall i :: 0 <= i < |others| ==> others[i].Valid() && Apart(others[i])
      requires forall i :: 0 <= i < |others| ==> others[i].Days == inputs[i] && others[i].lastMinute == minutes[i]
      requires forall i :: 0 <= i < |others| ==> MergeableDays(Run(e, Days, inputs[..i]), inputs[i])
      modifies this, Repr
      ensures Valid() && fresh(Repr - old(Repr)) && Days == Run(e, old(Days), inputs)
      ensures lastMinute == RunMinutes(e, old(lastMinute), minutes)
      ensures forall i :: 0 <= i < |others| ==>
        && others[i].Valid() && Apart(others[i])
        && others[i].Days == inputs[i] && others[i].lastMinute == minutes[i]
    {
      hide JoinMinutes, JoinDays, Run, RunMinutes, AddOutcome, Merged, Mergeable, MergeableDays;
      ghost var before, beforeMinutes := Days, lastMinute;
      NoRun(e, before, beforeMinutes);
      for n := 0 to |others|
        invariant Valid() && fresh(Repr - old(Repr)) && Days == Run(e, before, inputs[..n])
        invariant lastMinute == RunMinutes(e, beforeMinutes, minutes[..n])
        invariant forall i :: 0 <= i < |others| ==>
          && others[i].Valid() && Apart(others[i])
          && others[i].Days == inputs[i] && others[i].lastMinute == minutes[i]
      {
        RunMore(e, before, inputs, beforeMinutes, minutes, n);
        Merge(e, others[n]);
      }
      assert inputs[..|others|] == inputs && minutes[..|others|] == minutes;
    }

    /** `LastDayTotalSegmented`, for any iteration order; the stored series are only read. */
    method LastDayTotalSegmented(e: Element<T>, order: seq<string>, ghost lo: int, ghost hi: int)
      returns (res: Segmented<T>)
      requires Valid() && hi - lo <= MAX_DURATION
      requires forall i :: 0 <= i < |order| ==> order[i] in Days && Within(Days[order[i]], lo, hi)
      ensures fresh(res) && fresh(res.segments) && res.Value() == JoinAll(e, Ordered(Days, order))
    {
      var none := new T[0](_ => e.zero);
      res := new Segmented(0, 0, none);
      ghost var all := Ordered(Days, order);
      for i := 0 to |order|
        invariant fresh(res) && fresh(res.segments)
        invariant res.Value() == JoinAll(e, all[..i]) && Within(res.Value(), lo, hi)
      {
        var k := order[i];
        var stats := new Segmented(lastDay[k].interval, lastDay[k].first, lastDay[k].segments);
        assert stats.Value() == lastDay[k].Value() == all[i];
        MergedWithin(e, res.Value(), all[i], lo, hi);
        FoldLeftSnoc(Joiner(e), EmptySeries<T>(), all[..i], all[i]);
        assert all[..i + 1] == all[..i] + [all[i]];
        AddMerged(e, res.Value(), all[i]);
        var panics := res.Add(e, stats);
      }
      assert all[..|order|] == all;
    }

    /** `LastDayTotal`: every segment of every stored series. */
    method LastDayTotal(e: Element<T>, order: seq<string>) returns (res: T)
      requires Valid() && forall i :: 0 <= i < |order| ==> order[i] in Days
      ensures res == FoldLeft(e.add, e.zero, AllSegments(Ordered(Days, order)))
    {
      res := e.zero;
      ghost var all := Ordered(Days, order);
      for i := 0 to |order|
        invariant res == FoldLeft(e.add, e.zero, AllSegments(all[..i]))
      {
        var stats := lastDay[order[i]];
        ghost var done := AllSegments(all[..i]);
        assert stats.Value() == all[i] && done + stats.segments[..0] == done;
        for j := 0 to stats.segments.Length
          invariant res == FoldLeft(e.add, e.zero, done + stats.segments[..j])
        {
          FoldLeftSnoc(e.add, e.zero, done + stats.segments[..j], stats.segments[j]);
          assert done + stats.segments[..j + 1] == done + stats.segments[..j] + [stats.segments[j]];
          res := e.add(res, stats.segments[j]);
        }
        assert all[..i + 1][..i] == all[..i] && stats.segments[..stats.segments.Length] == all[i].segs;
      }
      assert all[..|order|] == all;
    }

    method MergeMinutes(e: Element<T>, other: HandlerMetrics<T>)
      modifies this`lastMinute
      ensures lastMinute == JoinMinutes(e, old(lastMinute), old(other.lastMinute))
    {
      ghost var before, theirs := lastMinute, other.lastMinute;
      var todo := other.lastMinute.Keys;
      while todo != {}
        invariant todo <= theirs.Keys && other.lastMinute.Keys == theirs.Keys
        invariant forall k :: k in todo ==> other.lastMinute[k] == theirs[k]
        invariant lastMinute.Keys == before.Keys + (theirs.Keys - todo)
        invariant forall k :: k in lastMinute ==>
          (lastMinute[k] == if k in todo || k !in theirs then before[k]
                            else e.add(if k in before then before[k] else e.zero, theirs[k]))
      {
        var k :| k in todo;
        var existing := if k in lastMinute then lastMinute[k] else e.zero;
        lastMinute := lastMinute[k := e.add(existing, other.lastMinute[k])];
        todo := todo - {k};
      }
    }

    method MergeDays(e: Element<T>, other: HandlerMetrics<T>)
      requires Valid() && other.Valid() && (other == this || Apart(other)) && MergeableDays(Days, other.Days)
      modifies this, Repr
      ensures Valid() && fresh(Repr - old(Repr)) && lastMinute == old(lastMinute)
      ensures Days == JoinDays(e, old(Days), old(other.Days))
      ensures other != this ==>
        Apart(other) && other.Valid() && other.lastMinute == old(other.lastMinute) && other.Days == old(other.Days)
    {
      hide Merged, Mergeable, JoinDay, JoinDays, Without;
      ghost var before, theirs := Days, other.Days;
      var todo := other.lastDay.Keys;
      JoinNone(e, before, theirs, todo);
      while todo != {}
        invariant todo <= theirs.Keys
        invariant Valid() && fresh(Repr - old(Repr)) && lastMinute == old(lastMinute)
        invariant Days == JoinDays(e, before, Without(theirs, todo))
        invariant other != this ==> Apart(other) && other.Valid() && other.Days == theirs
      {
        var k :| k in todo;
        JoinOne(e, before, theirs, todo, k);
        JoinDayAt(e, Days, other.Days, theirs, k);
        MergeDay(e, k, other);
        todo := todo - {k};
      }
      WithoutNone(theirs);
    }

    /** One step of the loop over the argument's series. */
    method MergeDay(e: Element<T>, k: string, other: HandlerMetrics<T>)
      requires Valid() && other.Valid() && (other == this || Apart(other)) && k in other.lastDay
      requires k in Days ==> Mergeable(Days[k], other.Days[k])
      modifies this, Repr
      ensures Valid() && fresh(Repr - old(Repr)) && lastMinute == old(lastMinute)
      ensures Days == old(Days)[k := JoinDay(e, old(Days), old(other.Days), k)]
    {
      if k !in lastDay {
        var vCopy := other.lastDay[k].DeepCopy();
        Put(k, vCopy, other.Days[k]);
      } else {
        AddDay(e, k, other.lastDay[k]);
      }
    }

    method AddDay(e: Element<T>, k: string, v: Stored<T>)
      requires Valid() && k in lastDay && (v.segments !in Repr || v == lastDay[k]) && Mergeable(Days[k], v.Value())
      modifies this, Repr
      ensures Valid() && fresh(Repr - old(Repr)) && lastMinute == old(lastMinute)
      ensures Days == old(Days)[k := Merged(e, old(Days)[k], old(v.Value()))]
    {
      ghost var joined := Merged(e, Days[k], v.Value());
      AddMerged(e, Days[k], v.Value());
      var panics, sum := lastDay[k].Add(e, v);
      Put(k, sum, joined);
    }

    method Put(k: string, s: Stored<T>, ghost value: Series<T>)
      requires this !in Repr && lastDay.Keys == Days.Keys && Owns(lastDay.Keys - {k})
      requires s.Value() == value && forall j :: j in lastDay.Keys - {k} ==> lastDay[j].segments != s.segments
      modifies this
      ensures Valid() && Repr == old(Repr) + {s.segments} && lastMinute == old(lastMinute)
      ensures Days == old(Days)[k := value]
    {
      lastDay, Days, Repr := lastDay[k := s], Days[k := value], Repr + {s.segments};
    }
  }

  /** The stored series in one iteration order of the map. */
  ghost function Ordered<T>(days: map<string, Series<T>>, order: seq<string>): seq<Series<T>>
    requires forall i :: 0 <= i < |order| ==> order[i] in days
  {
    seq(|order|, i requires 0 <= i < |order| => days[order[i]])
  }

  ghost predicate MergeableDays<T>(mine: map<string, Series<T>>, theirs: map<string, Series<T>>) {
    forall k :: k in mine && k in theirs ==> Mergeable(mine[k], theirs[k])
  }

  /** What merging leaves in `LastMinute`. */
  function JoinMinutes<T>(e: Element<T>, mine: map<string, T>, theirs: map<string, T>): map<string, T> {
    map k | k in mine.Keys + theirs.Keys ::
      if k !in theirs then mine[k] else e.add(if k in mine then mine[k] else e.zero, theirs[k])
  }

  /** What a run of merges leaves in `LastMinute`. */
  function RunMinutes<T>(e: Element<T>, mine: map<string, T>, minutes: seq<map<string, T>>): map<string, T> {
    if minutes == [] then mine
    else JoinMinutes(e, RunMinutes(e, mine, minutes[..|minutes| - 1]), minutes[|minutes| - 1])
  }

  function JoinDay<T>(e: Element<T>, mine: map<string, Series<T>>, theirs: map<string, Series<T>>, k: string): Series<T>
    requires k in theirs
  {
    if k in mine then Merged(e, mine[k], theirs[k]) else theirs[k]
  }

  /** What merging leaves in `LastDay`. */
  function JoinDays<T>(e: Element<T>, mine: map<string, Series<T>>, theirs: map<string, Series<T>>)
    : map<string, Series<T>>
  {
    map k | k in mine.Keys + theirs.Keys :: if k in theirs then JoinDay(e, mine, theirs, k) else mine[k]
  }

  /** The stored series after merging these inputs one after the other. */
  function Run<T>(e: Element<T>, mine: map<string, Series<T>>, inputs: seq<map<string, Series<T>>>)
    : map<string, Series<T>>
  {
    if inputs == [] then mine
    else JoinDays(e, Run(e, mine, inputs[..|inputs| - 1]), inputs[|inputs| - 1])
  }

  lemma {:induction false} NoRun<T>(e: Element<T>, mine: map<string, Series<T>>, minutes: map<string, T>)
    ensures Run(e, mine, []) == mine && RunMinutes(e, minutes, []) == minutes
  {
  }

  lemma {:induction false} RunMore<T>(
    e: Element<T>, mine: map<string, Series<T>>, inputs: seq<map<string, Series<T>>>,
    mineMinutes: map<string, T>, minutes: seq<map<string, T>>, n: nat)
    requires n < |inputs| == |minutes|
    ensures Run(e, mine, inputs[..n + 1]) == JoinDays(e, Run(e, mine, inputs[..n]), inputs[n])
    ensures RunMinutes(e, mineMinutes, minutes[..n + 1])
         == JoinMinutes(e, RunMinutes(e, mineMinutes, minutes[..n]), minutes[n])
  {
    hide JoinMinutes, JoinDays;
    assert inputs[..n + 1][..n] == inputs[..n] && minutes[..n + 1][..n] == minutes[..n];
  }

  function Without<T>(days: map<string, Series<T>>, todo: set<string>): map<string, Series<T>> {
    map k | k in days && k !in todo :: days[k]
  }

  lemma JoinNone<T>(e: Element<T>, mine: map<string, Series<T>>, theirs: map<string, Series<T>>, todo: set<string>)
    requires todo == theirs.Keys
    ensures JoinDays(e, mine, Without(theirs, todo)) == mine
  {
  }

  lemma JoinDayAt<T>(
    e: Element<T>, mine: map<string, Series<T>>, xs: map<string, Series<T>>, ys: map<string, Series<T>>, k: string)
    requires k in xs && k in ys && xs[k] == ys[k]
    ensures JoinDay(e, mine, xs, k) == JoinDay(e, mine, ys, k)
  {
  }

  lemma WithoutNone<T>(days: map<string, Series<T>>)
    ensures Without(days, {}) == days
  {
  }

  lemma JoinOne<T>(
    e: Element<T>, mine: map<string, Series<T>>, theirs: map<string, Series<T>>, todo: set<string>, k: string)
    requires k in todo && todo <= theirs.Keys
    ensures var now := JoinDays(e, mine, Without(theirs, todo));
            && (k in now <==> k in mine) && (k in now ==> now[k] == mine[k])
            && now[k := JoinDay(e, now, theirs, k)] == JoinDays(e, mine, Without(theirs, todo - {k}))
  {
    hide Merged;
  }
}
