/**
 The time range rule that RPCStats and APIStats share, for one end of the range: adopt a time while
 nothing was counted, drop it on disagreement.  When does the order of the merges not matter?
 */
module Clocks {
  import opened Basics

  /** One end of a range, and whether requests were counted. */
  datatype Stamp = Stamp(time: Option<int>, busy: bool)

  const IDLE: Stamp := Stamp(None, false)

  function Step(a: Stamp, other: Stamp): Stamp {
    var adopted := if a.time == None && !a.busy then other.time else a.time;
    Stamp(if adopted.Some? && other.time.Some? && adopted != other.time then None else adopted, a.busy || other.busy)
  }

  /** Merging these stamps one after the other into the zero value. */
  function Follow(xs: seq<Stamp>): Stamp {
    if xs == [] then IDLE else Step(Follow(xs[..|xs| - 1]), xs[|xs| - 1])
  }

  // ----- What decides

  /** The times of the idle stamps, those of the busy ones, and whether a busy stamp has none. */
  datatype Tally = Tally(idle: seq<int>, busy: seq<int>, untimed: bool) {
    function Plus(x: Stamp): Tally {
      if x.time.None? then Tally(idle, busy, untimed || x.busy)
      else if x.busy then Tally(idle, busy + [x.time.value], untimed)
      else Tally(idle + [x.time.value], busy, untimed)
    }

    function All(): seq<int> { idle + busy }
  }

  function TallyOf(xs: seq<Stamp>): Tally {
    if xs == [] then Tally([], [], false) else TallyOf(xs[..|xs| - 1]).Plus(xs[|xs| - 1])
  }

  ghost predicate Only(s: seq<int>, t: int) { forall i :: 0 <= i < |s| ==> s[i] == t }

  ghost predicate AllEqual(s: seq<int>) { forall i, j :: 0 <= i < j < |s| ==> s[i] == s[j] }

  ghost predicate AllDiffer(s: seq<int>) { forall i, j :: 0 <= i < j < |s| ==> s[i] != s[j] }

  ghost predicate NoneEqual(s: seq<int>, t: seq<int>) { forall i, j :: 0 <= i < |s| && 0 <= j < |t| ==> s[i] != t[j] }

  /** The final time is the same for every order of merges. */
  ghost predicate Settled(c: Tally) {
    if AllEqual(c.All()) then
      c.All() == [] || !c.untimed
    else
      || !AllEqual(c.busy)
      || (c.busy == [] && AllDiffer(c.idle) && |c.idle| % 2 == 0)
      || (c.busy != [] && NoneEqual(c.idle, c.busy) && (AllEqual(c.idle) || (AllDiffer(c.idle) && |c.idle| % 2 == 1)))
  }

  /** The final time of settled stamps. */
  ghost predicate Ends(c: Tally, time: Option<int>) {
    if AllEqual(c.All()) && c.All() != [] then time == Some(c.All()[0]) else time == None
  }

  // ----- What every step keeps

  /** A time that survives is the one of all busy stamps; the state is busy if some stamp was. */
  ghost predicate Sound(a: Stamp, c: Tally) {
    && (a.busy <==> c.busy != [] || c.untimed)
    && (a.time.Some? ==> (a.time.value in c.idle || a.time.value in c.busy) && Only(c.busy, a.time.value))
  }

  lemma SoundStep(a: Stamp, c: Tally, x: Stamp)
    requires Sound(a, c)
    ensures Sound(Step(a, x), c.Plus(x))
  {
    MembersStep(c, x);
  }

  lemma MembersStep(c: Tally, x: Stamp)
    ensures forall t :: t in c.Plus(x).idle <==> t in c.idle || (!x.busy && x.time == Some(t))
    ensures forall t :: t in c.Plus(x).busy <==> t in c.busy || (x.busy && x.time == Some(t))
  {
  }

  /** One time only, and none is missing where requests were counted. */
  ghost predicate Constant(a: Stamp, c: Tally, t: int) {
    a.time == if c.idle == c.busy == [] then None else Some(t)
  }

  lemma ConstantStep(a: Stamp, c: Tally, t: int, x: Stamp)
    requires Sound(a, c) && Constant(a, c, t)
    requires Only(c.Plus(x).idle, t) && Only(c.Plus(x).busy, t) && !c.Plus(x).untimed
    ensures Constant(Step(a, x), c.Plus(x), t)
  {
    MembersStep(c, x);
    if x.time.Some? {
      assert x.time.value in if x.busy then c.Plus(x).busy else c.Plus(x).idle;
    }
  }

  /** Idle times that are pairwise different, and no busy time but t, if any, which is none of them. */
  ghost predicate Alternating(c: Tally, t: Option<int>) {
    AllDiffer(c.idle) && if t.None? then c.busy == [] else t.value !in c.idle && Only(c.busy, t.value)
  }

  /** Then the time comes and goes. */
  ghost predicate Toggles(a: Stamp, c: Tally, t: Option<int>) {
    && (a.time.Some? && a.time == t ==> |c.idle| % 2 == 0)
    && (a.time.Some? && a.time != t ==> c.busy == [] && |c.idle| % 2 == 1 && a.time.value in c.idle)
    && (a == IDLE ==> |c.idle| % 2 == 0)
  }

  lemma TogglesStep(a: Stamp, c: Tally, t: Option<int>, x: Stamp)
    requires Sound(a, c) && Toggles(a, c, t) && Alternating(c.Plus(x), t)
    ensures Toggles(Step(a, x), c.Plus(x), t)
  {
    MembersStep(c, x);
    var d := c.Plus(x);
    if x.time.Some? {
      var u := x.time.value;
      if x.busy {
        assert d.busy[|c.busy|] == u;
      } else {
        assert d.idle[|c.idle|] == u && forall i :: 0 <= i < |c.idle| ==> d.idle[i] == c.idle[i];
      }
    }
  }

  /** Idle stamps all of one time, busy ones all of another. */
  ghost predicate Splits(a: Stamp, c: Tally, t: int, u: int) {
    && (a.time == Some(t) ==> c.idle == [])
    && (a.time == Some(u) ==> c.busy == [])
    && (a == IDLE ==> c.idle == [])
  }

  lemma SplitsStep(a: Stamp, c: Tally, t: int, u: int, x: Stamp)
    requires Sound(a, c) && Splits(a, c, t, u) && t != u
    requires Only(c.Plus(x).idle, u) && Only(c.Plus(x).busy, t)
    ensures Splits(Step(a, x), c.Plus(x), t, u)
  {
    MembersStep(c, x);
    var d := c.Plus(x);
    if x.time.Some? {
      assert if x.busy then d.busy[|c.busy|] == x.time.value else d.idle[|c.idle|] == x.time.value;
    }
  }

  lemma Smaller(c: Tally, x: Stamp)
    ensures c.idle <= c.Plus(x).idle && c.busy <= c.Plus(x).busy && (c.untimed ==> c.Plus(x).untimed)
  {
  }

  // ----- Whole runs

  lemma {:induction false} RunSound(xs: seq<Stamp>)
    ensures Sound(Follow(xs), TallyOf(xs))
  {
    if xs != [] {
      var n := |xs| - 1;
      RunSound(xs[..n]);
      SoundStep(Follow(xs[..n]), TallyOf(xs[..n]), xs[n]);
    }
  }

  lemma {:induction false} RunConstant(xs: seq<Stamp>, t: int)
    requires Only(TallyOf(xs).idle, t) && Only(TallyOf(xs).busy, t) && !TallyOf(xs).untimed
    ensures Constant(Follow(xs), TallyOf(xs), t)
  {
    if xs != [] {
      var n := |xs| - 1;
      Smaller(TallyOf(xs[..n]), xs[n]);
      RunSound(xs[..n]);
      RunConstant(xs[..n], t);
      ConstantStep(Follow(xs[..n]), TallyOf(xs[..n]), t, xs[n]);
    }
  }

  lemma {:induction false} RunToggles(xs: seq<Stamp>, t: Option<int>)
    requires Alternating(TallyOf(xs), t)
    ensures Toggles(Follow(xs), TallyOf(xs), t)
  {
    if xs != [] {
      var n := |xs| - 1;
      Smaller(TallyOf(xs[..n]), xs[n]);
      RunSound(xs[..n]);
      RunToggles(xs[..n], t);
      TogglesStep(Follow(xs[..n]), TallyOf(xs[..n]), t, xs[n]);
    }
  }

  lemma {:induction false} RunSplits(xs: seq<Stamp>, t: int, u: int)
    requires t != u && Only(TallyOf(xs).idle, u) && Only(TallyOf(xs).busy, t)
    ensures Splits(Follow(xs), TallyOf(xs), t, u)
  {
    if xs != [] {
      var n := |xs| - 1;
      Smaller(TallyOf(xs[..n]), xs[n]);
      RunSound(xs[..n]);
      RunSplits(xs[..n], t, u);
      SplitsStep(Follow(xs[..n]), TallyOf(xs[..n]), t, u, xs[n]);
    }
  }

  // ----- Settled stamps end the same in every order

  lemma {:induction false} SettledEnds(xs: seq<Stamp>)
    requires Settled(TallyOf(xs))
    ensures Ends(TallyOf(xs), Follow(xs).time)
  {
    var a, c := Follow(xs), TallyOf(xs);
    RunSound(xs);
    hide Follow, TallyOf;
    if AllEqual(c.All()) {
      if c.All() != [] {
        assert Only(c.idle, c.All()[0]) && Only(c.busy, c.All()[0]) by {
          assert forall i :: 0 <= i < |c.idle| ==> c.idle[i] == c.All()[i];
          assert forall i :: 0 <= i < |c.busy| ==> c.busy[i] == c.All()[|c.idle| + i];
        }
        RunConstant(xs, c.All()[0]);
      }
    } else if AllEqual(c.busy) {
      if c.busy == [] {
        RunToggles(xs, None);
      } else if AllEqual(c.idle) {
        assert c.idle == [] ==> c.All() == c.busy;
        RunSplits(xs, c.busy[0], c.idle[0]);
      } else {
        RunToggles(xs, Some(c.busy[0]));
      }
    }
  }
}
