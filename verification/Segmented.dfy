/**
 Time-segmented metrics: `Segmented[T]` of metrics.go and the laws of its merge.

 A time is an instant in nanoseconds.  Durations are 64-bit in the source: `Times` wraps around and
 `Sub` saturates as they do there.
 */
module Segments {
  import opened Basics
  import opened Folds

  const MAX_DURATION: int := 0x7fff_ffff_ffff_ffff

  function Min(x: int, y: int): int { if y < x then y else x }
  function Max(x: int, y: int): int { if x < y then y else x }

  /** `t.Sub(u)`: saturates at the ends of the duration range. */
  function Sub(t: int, u: int): int { Max(-MAX_DURATION - 1, Min(MAX_DURATION, t - u)) }

  /** The product of two durations: 64-bit wrap-around. */
  function Times(x: int, y: int): int { Wrap(x * y) }

  function Wrap(p: int): int { (p + MAX_DURATION + 1) % (2 * (MAX_DURATION + 1)) - MAX_DURATION - 1 }

  /** The value of a `Segmented`: slot i covers [first + i*Step, first + (i+1)*Step). */
  datatype Series<T> = Series(interval: int, first: int, segs: seq<T>) {
    function Step(): int { interval * SECOND }
    function End(): int { first + |segs| * Step() }
  }

  predicate SameTimeline<T>(a: Series<T>, b: Series<T>) {
    a.segs != [] && b.segs != [] && a.interval == b.interval && b.interval != 0
  }

  /** Slot meets slot: same start, same number of slots. */
  predicate SlotBySlot<T>(a: Series<T>, b: Series<T>) { a.first == b.first && |a.segs| == |b.segs| }

  /**
   What `Add` needs when both series carry data and their slots do not simply meet: a positive interval
   and a covered span that fits a duration.
   */
  ghost predicate Mergeable<T>(a: Series<T>, b: Series<T>) {
    SameTimeline(a, b) && !SlotBySlot(a, b) ==>
      a.interval > 0 && Max(a.End(), b.End()) - Min(a.first, b.first) <= MAX_DURATION
  }

  function Lookup<T>(zero: T, segs: seq<T>, i: int): T { if 0 <= i < |segs| then segs[i] else zero }

  /** Slot k of the union of `a` (shifted by i slots) and `b` (shifted by j slots). */
  function Slot<T>(e: Element<T>, a: seq<T>, i: int, b: seq<T>, j: int, k: int): T {
    var mine := Lookup(e.zero, a, k - i);
    if 0 <= k - j < |b| then e.add(mine, b[k - j]) else mine
  }

  /** How many whole steps `first` lies after `start`. */
  function Offset<T>(s: Series<T>, start: int): (n: int)
    requires s.interval > 0 && start <= s.first
    ensures n >= 0
  {
    (s.first - start) / s.Step()
  }

  /**
   The merged series, on one timeline from the earlier start: what `Add` computes on each of its paths.
   A negative interval is for series that are not `Mergeable` unless slot meets slot.
   */
  function Merged<T>(e: Element<T>, a: Series<T>, b: Series<T>): Series<T> {
    if b.segs == [] then a
    else if a.segs == [] then b
    else if a.interval != b.interval || b.interval == 0 then a
    else if a.interval < 0 then
      if SlotBySlot(a, b) then Series(a.interval, a.first, seq(|a.segs|, k => Slot(e, a.segs, 0, b.segs, 0, k)))
      else a
    else
      var start := Min(a.first, b.first);
      var i, j := Offset(a, start), Offset(b, start);
      Series(a.interval, start, seq(Max(i + |a.segs|, j + |b.segs|), k => Slot(e, a.segs, i, b.segs, j, k)))
  }

  /** What a call may end in: the new value, or a run-time panic that leaves the old one. */
  datatype Outcome<T> = Panics | Gives(sum: Series<T>)

  /** Go's division, which truncates toward zero. */
  function Quotient(x: int, y: int): int
    requires y != 0
  {
    var q := (if x < 0 then -x else x) / (if y < 0 then -y else y);
    if (x < 0) == (y < 0) then q else -q
  }

  /** A new array of so many slots takes the segments of a at i, if they fit, and of b at j, as far as they fit. */
  function Laid<T>(e: Element<T>, a: Series<T>, b: Series<T>, start: int, slots: int, i: int, j: int): Outcome<T> {
    if slots < 0 || i < 0 || slots < i + |a.segs| then Panics
    else Gives(Series(a.interval, start, seq(slots, k => Slot(e, a.segs, i, b.segs, j, k))))
  }

  /** The general path for any interval and any times, with every wrap-around, panic and skipped index. */
  function Unaligned<T>(e: Element<T>, a: Series<T>, b: Series<T>): Outcome<T> {
    var step, start := Times(a.interval, SECOND), Min(a.first, b.first);
    if step == 0 then Panics
    else
      var aEnd, bEnd := a.first + Times(|a.segs|, step), b.first + Times(|b.segs|, step);
      var slots := Quotient(Sub(Max(bEnd, aEnd), start), step);
      var i, j := Quotient(Sub(a.first, start), step), Quotient(Sub(b.first, start), step);
      Laid(e, a, b, start, slots, i, j)
  }

  /** What `Add` does. */
  function AddOutcome<T>(e: Element<T>, a: Series<T>, b: Series<T>): Outcome<T> {
    if SameTimeline(a, b) && !SlotBySlot(a, b) then Unaligned(e, a, b) else Gives(Merged(e, a, b))
  }

  /** Where `Mergeable` holds nothing panics, and the sum is the merged series. */
  lemma AddMerged<T>(e: Element<T>, a: Series<T>, b: Series<T>)
    requires Mergeable(a, b)
    ensures AddOutcome(e, a, b) == Gives(Merged(e, a, b))
  {
    if SameTimeline(a, b) && !SlotBySlot(a, b) {
      var start := Min(a.first, b.first);
      DurationsExact(a, b);
      SlotCount(a, b);
      QuotientExact(a, b);
      var r := Unaligned(e, a, b);
      assert r.Gives? && |r.sum.segs| == |Merged(e, a, b).segs|;
      assert r.sum.segs == Merged(e, a, b).segs;
    }
  }

  function Joiner<T>(e: Element<T>): (Series<T>, Series<T>) -> Series<T> { (a, b) => Merged(e, a, b) }

  /** The zero value. */
  function EmptySeries<T>(): Series<T> { Series(0, 0, []) }

  /** Merging these series one after the other into the zero value. */
  function JoinAll<T>(e: Element<T>, all: seq<Series<T>>): Series<T> { FoldLeft(Joiner(e), EmptySeries<T>(), all) }

  /** The segments of these series one after the other. */
  function AllSegments<T>(all: seq<Series<T>>): seq<T> {
    if all == [] then [] else AllSegments(all[..|all| - 1]) + all[|all| - 1].segs
  }

  /** The series, unless empty, has a positive interval and lies within these bounds. */
  ghost predicate Within<T>(s: Series<T>, lo: int, hi: int) {
    s.segs != [] ==> s.interval > 0 && lo <= s.first && s.End() <= hi
  }

  // ----- Arithmetic of slots

  lemma DivShift(d: int, n: int, step: int)
    requires step > 0
    ensures (d + n * step) / step == d / step + n
    ensures (d + n * step) % step == d % step
  {
    var q, r := d / step, d % step;
    assert d + n * step == (q + n) * step + r;
    DivUnique(d + n * step, step, q + n, r);
  }

  lemma MulMonotone(x: int, y: int, step: int)
    requires step > 0 && x <= y
    ensures x * step <= y * step
  {
  }

  lemma DivUnique(x: int, step: int, q: int, r: int)
    requires step > 0 && x == q * step + r && 0 <= r < step
    ensures x / step == q && x % step == r
  {
    var d := x / step;
    assert x == d * step + x % step;
    if q < d {
      MulMonotone(q + 1, d, step);
    } else if d < q {
      MulMonotone(d + 1, q, step);
    }
  }

  lemma DivMonotone(x: int, y: int, step: int)
    requires step > 0 && x <= y
    ensures x / step <= y / step
  {
    var p, q := x / step, y / step;
    assert x == p * step + x % step && y == q * step + y % step;
    if q < p {
      MulMonotone(q + 1, p, step);
    }
  }

  lemma TimesExact(x: int, y: int)
    requires -MAX_DURATION - 1 <= x * y <= MAX_DURATION
    ensures Times(x, y) == x * y
  {
    WrapExact(x * y);
  }

  lemma WrapExact(p: int)
    requires -MAX_DURATION - 1 <= p <= MAX_DURATION
    ensures Wrap(p) == p
  {
  }

  /** The later end gives the number of slots, truncating division or not. */
  lemma SlotCount<T>(a: Series<T>, b: Series<T>)
    requires SameTimeline(a, b) && a.interval > 0
    ensures var start, step := Min(a.first, b.first), a.Step();
            var i, j := Offset(a, start), Offset(b, start);
            && (a.End() > b.End() ==> (a.End() - start) / step == i + |a.segs| >= j + |b.segs|)
            && (a.End() <= b.End() ==> (b.End() - start) / step == j + |b.segs| >= i + |a.segs|)
  {
    var start, step := Min(a.first, b.first), a.Step();
    DivShift(a.first - start, |a.segs|, step);
    DivShift(b.first - start, |b.segs|, step);
    if a.End() > b.End() {
      DivMonotone(b.End() - start, a.End() - start, step);
    } else {
      DivMonotone(a.End() - start, b.End() - start, step);
    }
  }

  /** Where the union fits a duration, every 64-bit quantity `Add` computes is exact. */
  lemma DurationsExact<T>(a: Series<T>, b: Series<T>)
    requires SameTimeline(a, b) && !SlotBySlot(a, b) && Mergeable(a, b)
    ensures var start, step := Min(a.first, b.first), a.Step();
            && step > 0 && Times(a.interval, SECOND) == step
            && Times(|a.segs|, step) == a.End() - a.first && Times(|b.segs|, step) == b.End() - b.first
            && Sub(a.End(), start) == a.End() - start && Sub(b.End(), start) == b.End() - start
            && Sub(a.first, start) == a.first - start && Sub(b.first, start) == b.first - start
  {
    var step := a.Step();
    MulMonotone(1, |a.segs|, step);
    MulMonotone(1, |b.segs|, step);
    TimesExact(a.interval, SECOND);
    TimesExact(|a.segs|, step);
    TimesExact(|b.segs|, step);
  }

  lemma QuotientExact<T>(a: Series<T>, b: Series<T>)
    requires a.interval > 0
    ensures forall x :: x >= 0 ==> Quotient(x, a.Step()) == x / a.Step()
  {
  }

  /** A merge never outgrows the bounds of its inputs. */
  lemma MergedWithin<T>(e: Element<T>, a: Series<T>, b: Series<T>, lo: int, hi: int)
    requires Within(a, lo, hi) && Within(b, lo, hi) && hi - lo <= MAX_DURATION
    ensures Mergeable(a, b) && Within(Merged(e, a, b), lo, hi)
  {
    if SameTimeline(a, b) {
      var start, step := Min(a.first, b.first), a.Step();
      SlotCount(a, b);
      var span := Max(a.End(), b.End()) - start;
      assert span == (span / step) * step + span % step;
    }
  }

  // ----- The class

  class Segmented<T> {
    var interval: int       // seconds covered by each segment
    var firstTime: int      // start of the oldest segment
    var segments: array<T>  // oldest first

    constructor (interval: int, firstTime: int, segments: array<T>)
      ensures this.interval == interval && this.firstTime == firstTime && this.segments == segments
    {
      this.interval, this.firstTime, this.segments := interval, firstTime, segments;
    }

    ghost function Value(): Series<T>
      reads this, segments
    {
      Series(interval, firstTime, segments[..])
    }

    /** Merges `other` into this, for any two series; after a panic nothing has changed. */
    method Add(e: Element<T>, other: Segmented?<T>) returns (panics: bool)
      modifies this, segments
      ensures other == null || old(other.segments.Length) == 0 ==>
        !panics && Value() == old(Value()) && segments == old(segments)
      ensures other != null && old(other.segments.Length) > 0 && old(segments.Length) == 0 ==>
        !panics && Value() == old(other.Value()) && fresh(segments)
      ensures other != null && old(segments.Length) > 0 && old(other.interval == 0 || interval != other.interval) ==>
        !panics && Value() == old(Value()) && segments == old(segments)
      ensures other != null ==>
        match AddOutcome(e, old(Value()), old(other.Value()))
        case Panics => panics && Value() == old(Value())
        case Gives(sum) => !panics && Value() == sum
      ensures segments == old(segments) || fresh(segments)
    {
      panics := false;
      if other == null || other.segments.Length == 0 {
        return;
      }
      if segments.Length == 0 {
        // Copy, so that the argument's segments are never shared.
        var copied := new T[other.segments.Length](
          i requires 0 <= i < other.segments.Length reads other, other.segments => other.segments[i]);
        interval, firstTime, segments := other.interval, other.firstTime, copied;
        assert segments[..] == other.segments[..];
        return;
      }
      if other.interval == 0 || interval != other.interval {
        return;
      }
      if firstTime == other.firstTime && segments.Length == other.segments.Length {
        AddInPlace(e, other);
        return;
      }
      panics := AddUnaligned(e, other);
    }

    /** The general path: a new timeline from the earlier start to the later end. */
    method AddUnaligned(e: Element<T>, other: Segmented<T>) returns (panics: bool)
      modifies this
      ensures match Unaligned(e, old(Value()), old(other.Value()))
              case Panics => panics && Value() == old(Value())
              case Gives(sum) => !panics && Value() == sum
      ensures segments == old(segments) || fresh(segments)
    {
      ghost var a, b := Value(), other.Value();
      var step := Times(interval, SECOND);
      var start := firstTime;
      if other.firstTime < start {
        start := other.firstTime;
      }
      var aEnd := firstTime + Times(segments.Length, step);
      var oEnd := other.firstTime + Times(other.segments.Length, step);
      if step == 0 {
        return true;
      }
      var totalSlots := Quotient(Sub(oEnd, start), step);
      if aEnd > oEnd {
        totalSlots := Quotient(Sub(aEnd, start), step);
      }
      var offset := 0;
      if firstTime > start {
        offset := Quotient(Sub(firstTime, start), step);
      }
      var otherOffset := Quotient(Sub(other.firstTime, start), step);
      if totalSlots < 0 || offset < 0 || totalSlots < offset + segments.Length {
        return true;
      }
      var newSegments := new T[totalSlots](_ => e.zero);
      Fill(e, newSegments, segments, offset, other.segments, otherOffset);
      firstTime, segments := start, newSegments;
      assert segments[..] == Unaligned(e, a, b).sum.segs;
      panics := false;
    }

    /** Copies `mine` into the zeroed `slots` at `i`, then adds `others` at `j`, as far as they fit. */
    static method Fill(e: Element<T>, slots: array<T>, mine: array<T>, i: nat, others: array<T>, j: int)
      requires slots != mine && slots != others && i + mine.Length <= slots.Length
      requires forall k :: 0 <= k < slots.Length ==> slots[k] == e.zero
      modifies slots
      ensures forall k :: 0 <= k < slots.Length ==> slots[k] == Slot(e, mine[..], i, others[..], j, k)
    {
      forall k | 0 <= k < mine.Length {
        slots[i + k] := mine[k];
      }
      assert forall k :: 0 <= k < slots.Length ==> slots[k] == Lookup(e.zero, mine[..], k - i) by {
        forall k | i <= k < i + mine.Length ensures slots[k] == mine[k - i] {
          assert slots[i + (k - i)] == mine[k - i];
        }
      }
      for n := 0 to others.Length
        invariant forall k :: 0 <= k < slots.Length ==> slots[k] == Slot(e, mine[..], i, others[..n], j, k)
      {
        var idx := j + n;
        if idx < 0 || idx >= slots.Length {
          continue;
        }
        slots[idx] := e.add(slots[idx], others[n]);
      }
      assert others[..others.Length] == others[..];
    }

    /** The fast path: same start and same length, so slot meets slot. */
    method AddInPlace(e: Element<T>, other: Segmented<T>)
      requires SameTimeline(Value(), other.Value()) && SlotBySlot(Value(), other.Value())
      modifies segments
      ensures Value() == Merged(e, old(Value()), old(other.Value())) && segments.Length == old(segments.Length)
      ensures forall k :: 0 <= k < segments.Length ==> segments[k] == e.add(old(segments[k]), old(other.segments[k]))
    {
      ghost var a, b := Value(), other.Value();
      for i := 0 to segments.Length
        invariant segments[i..] == a.segs[i..] && other.segments[i..] == b.segs[i..]
        invariant forall k :: 0 <= k < i ==> segments[k] == e.add(a.segs[k], b.segs[k])
      {
        assert segments[i] == a.segs[i..][0] && other.segments[i] == b.segs[i..][0];
        segments[i] := e.add(segments[i], other.segments[i]);
        assert segments[i + 1..] == a.segs[i..][1..] && other.segments[i + 1..] == b.segs[i..][1..];
      }
      assert segments[..] == Merged(e, a, b).segs;
    }

    /** The total of all segments, oldest first. */
    method Total(e: Element<T>) returns (res: T)
      ensures res == FoldLeft(e.add, e.zero, segments[..])
    {
      res := e.zero;
      for i := 0 to segments.Length
        invariant res == FoldLeft(e.add, e.zero, segments[..i])
      {
        FoldLeftSnoc(e.add, e.zero, segments[..i], segments[i]);
        assert segments[..i] + [segments[i]] == segments[..i + 1];
        res := e.add(res, segments[i]);
      }
      assert segments[..segments.Length] == segments[..];
    }
  }

  /** A `Segmented` stored by value, as in a map: the struct is copied, its segment array is shared. */
  datatype Stored<T> = Stored(interval: int, first: int, segments: array<T>) {
    ghost function Value(): Series<T>
      reads segments
    {
      Series(interval, first, segments[..])
    }

    /** `existing := m[k]; existing.Add(&v)`: the stored array itself may be written. */
    method Add(e: Element<T>, v: Stored<T>) returns (panics: bool, sum: Stored<T>)
      modifies segments
      ensures match AddOutcome(e, old(Value()), old(v.Value()))
              case Panics => panics && sum.Value() == old(Value())
              case Gives(s) => !panics && sum.Value() == s
      ensures sum.segments == segments || fresh(sum.segments)
    {
      var existing := new Segmented(interval, first, segments);
      var argument := new Segmented(v.interval, v.first, v.segments);
      panics := existing.Add(e, argument);
      sum := Stored(existing.interval, existing.firstTime, existing.segments);
    }

    /** The deep copy that `RPCMetrics.Merge` and `APIMetrics.Merge` store: no segment is shared. */
    method DeepCopy() returns (vCopy: Stored<T>)
      ensures fresh(vCopy.segments) && vCopy.Value() == Value()
    {
      var copied := new T[segments.Length](i requires 0 <= i < segments.Length reads segments => segments[i]);
      vCopy := Stored(interval, first, copied);
      assert copied[..] == segments[..];
    }
  }
}
