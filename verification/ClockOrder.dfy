/** Stamps that are not settled have two orders with different ends; settled ones have none. */
module ClockOrder {
  import opened Basics
  import opened Clocks
  import opened Permutations

  // ----- The tally depends on the multiset of stamps only

  function Join(c: Tally, d: Tally): Tally {
    Tally(c.idle + d.idle, c.busy + d.busy, c.untimed || d.untimed)
  }

  lemma {:induction false} TallyAppend(xs: seq<Stamp>, ys: seq<Stamp>)
    ensures TallyOf(xs + ys) == Join(TallyOf(xs), TallyOf(ys))
  {
    if ys == [] {
      assert xs + ys == xs;
    } else {
      var n := |ys| - 1;
      assert (xs + ys)[..|xs + ys| - 1] == xs + ys[..n];
      TallyAppend(xs, ys[..n]);
    }
  }

  ghost predicate SameTally(c: Tally, d: Tally) {
    multiset(c.idle) == multiset(d.idle) && multiset(c.busy) == multiset(d.busy) && c.untimed == d.untimed
  }

  lemma JoinSwaps(x: Tally, c: Tally, d: Tally, rest: Tally)
    requires SameTally(rest, Join(c, d))
    ensures SameTally(Join(x, rest), Join(c, Join(x, d)))
  {
  }

  lemma {:induction false} TallyPermutes(xs: seq<Stamp>, ys: seq<Stamp>)
    requires multiset(xs) == multiset(ys)
    ensures SameTally(TallyOf(xs), TallyOf(ys))
    decreases |xs|
  {
    if xs == [] {
      assert |multiset(ys)| == 0;
    } else {
      var i := Pull(xs, ys);
      var x, before, after := xs[0], ys[..i], ys[i + 1..];
      TallyPermutes(xs[1..], before + after);
      assert xs == [x] + xs[1..] && ys == before + ([x] + after);
      hide TallyOf, SameTally, Join;
      TallyAppend([x], xs[1..]);
      TallyAppend(before, after);
      TallyAppend(before, [x] + after);
      TallyAppend([x], after);
      JoinSwaps(TallyOf([x]), TallyOf(before), TallyOf(after), TallyOf(xs[1..]));
    }
  }

  lemma AllEqualPermutes(s: seq<int>, t: seq<int>)
    requires multiset(s) == multiset(t) && AllEqual(s)
    ensures AllEqual(t)
  {
    SameMembers(s, t);
    forall i | 0 <= i < |t| ensures t[i] == s[0] {
      assert t[i] in s;
    }
  }

  lemma NoneEqualPermutes(s: seq<int>, t: seq<int>, u: seq<int>, w: seq<int>)
    requires multiset(s) == multiset(t) && multiset(u) == multiset(w) && NoneEqual(s, u)
    ensures NoneEqual(t, w)
  {
    SameMembers(s, t);
    SameMembers(u, w);
    forall i, j | 0 <= i < |t| && 0 <= j < |w| ensures t[i] != w[j] {
      assert t[i] in s && w[j] in u;
    }
  }

  lemma {:induction false} DistinctOnce(s: seq<int>, t: int)
    requires AllDiffer(s)
    ensures multiset(s)[t] <= 1
  {
    if s != [] {
      var n := |s| - 1;
      assert s == s[..n] + [s[n]];
      DistinctOnce(s[..n], t);
    }
  }

  lemma RepeatedTwice(s: seq<int>, i: nat, j: nat)
    requires i < j < |s| && s[i] == s[j]
    ensures multiset(s)[s[i]] >= 2
  {
    assert s == s[..i] + [s[i]] + s[i + 1..j] + [s[j]] + s[j + 1..];
  }

  lemma DistinctPermutes(s: seq<int>, t: seq<int>)
    requires multiset(s) == multiset(t) && AllDiffer(s)
    ensures AllDiffer(t)
  {
    forall i, j | 0 <= i < j < |t| ensures t[i] != t[j] {
      DistinctOnce(s, t[i]);
      if t[i] == t[j] { RepeatedTwice(t, i, j); }
    }
  }

  lemma SettledPermutes(c: Tally, d: Tally)
    requires SameTally(c, d) && Settled(c)
    ensures Settled(d)
  {
    SameMembers(c.idle, d.idle);
    SameMembers(c.busy, d.busy);
    assert multiset(c.All()) == multiset(d.All());
    hide AllEqual, NoneEqual, AllDiffer;
    if AllEqual(c.All()) { AllEqualPermutes(c.All(), d.All()); }
    if AllEqual(d.All()) { AllEqualPermutes(d.All(), c.All()); }
    if AllEqual(d.busy) { AllEqualPermutes(d.busy, c.busy); }
    if AllEqual(c.idle) { AllEqualPermutes(c.idle, d.idle); }
    if AllDiffer(c.idle) { DistinctPermutes(c.idle, d.idle); }
    if NoneEqual(c.idle, c.busy) { NoneEqualPermutes(c.idle, d.idle, c.busy, d.busy); }
  }

  /** Settled stamps end the same in every order. */
  lemma {:induction false} SettledFree(xs: seq<Stamp>, ys: seq<Stamp>)
    requires multiset(xs) == multiset(ys) && Settled(TallyOf(xs))
    ensures Follow(xs).time == Follow(ys).time
  {
    var c, d := TallyOf(xs), TallyOf(ys);
    TallyPermutes(xs, ys);
    SettledPermutes(c, d);
    SettledEnds(xs);
    SettledEnds(ys);
    hide Follow, TallyOf, Settled;
    SameMembers(c.All(), d.All());
    if AllEqual(c.All()) { AllEqualPermutes(c.All(), d.All()); }
    if AllEqual(d.All()) { AllEqualPermutes(d.All(), c.All()); }
    if AllEqual(c.All()) && c.All() != [] {
      assert d.All()[0] in c.All();
    }
  }

  // ----- Runs from any state

  function Resume(a: Stamp, xs: seq<Stamp>): Stamp {
    if xs == [] then a else Step(Resume(a, xs[..|xs| - 1]), xs[|xs| - 1])
  }

  lemma {:induction false} FollowResume(xs: seq<Stamp>, ys: seq<Stamp>)
    ensures Follow(xs + ys) == Resume(Follow(xs), ys)
  {
    if ys == [] {
      assert xs + ys == xs;
    } else {
      var n := |ys| - 1;
      assert (xs + ys)[..|xs + ys| - 1] == xs + ys[..n];
      FollowResume(xs, ys[..n]);
    }
  }

  function Idle(t: int): Stamp { Stamp(Some(t), false) }
  function Busy(t: int): Stamp { Stamp(Some(t), true) }

  /** The stamps without a time. */
  function Plain(xs: seq<Stamp>): (r: seq<Stamp>)
    ensures forall i :: 0 <= i < |r| ==> r[i].time.None?
  {
    if xs == [] then []
    else Plain(xs[..|xs| - 1]) + if xs[|xs| - 1].time.None? then [xs[|xs| - 1]] else []
  }

  /** The idle times j, in this order, then or before them the busy ones, and then the rest. */
  function IdleFirst(j: seq<int>, xs: seq<Stamp>): seq<Stamp> {
    Apply(Idle, j) + Apply(Busy, TallyOf(xs).busy) + Plain(xs)
  }

  function BusyFirst(xs: seq<Stamp>): seq<Stamp> {
    Apply(Busy, TallyOf(xs).busy) + Apply(Idle, TallyOf(xs).idle) + Plain(xs)
  }

  ghost function Parts(xs: seq<Stamp>): multiset<Stamp> {
    multiset(Apply(Idle, TallyOf(xs).idle)) + multiset(Apply(Busy, TallyOf(xs).busy)) + multiset(Plain(xs))
  }

  lemma PartsMore(xs: seq<Stamp>, x: Stamp)
    ensures Parts(xs + [x]) == Parts(xs) + multiset{x}
  {
    assert (xs + [x])[..|xs|] == xs;
    assert TallyOf(xs + [x]) == TallyOf(xs).Plus(x);
    PlainMore(xs, x);
    hide Apply, Plain, TallyOf;
    if x.time.Some? {
      AppliedMore(Idle, TallyOf(xs).idle, x.time.value);
      AppliedMore(Busy, TallyOf(xs).busy, x.time.value);
    }
  }

  lemma {:induction false} Sorted(xs: seq<Stamp>)
    ensures Parts(xs) == multiset(xs)
  {
    if xs != [] {
      var n := |xs| - 1;
      Sorted(xs[..n]);
      PartsMore(xs[..n], xs[n]);
      assert xs == xs[..n] + [xs[n]];
      hide Parts;
    }
  }

  lemma AppliedMore(f: int -> Stamp, s: seq<int>, t: int)
    ensures multiset(Apply(f, s + [t])) == multiset(Apply(f, s)) + multiset{f(t)}
  {
    assert Apply(f, s + [t]) == Apply(f, s) + [f(t)];
  }

  lemma {:induction false} PlainMore(xs: seq<Stamp>, x: Stamp)
    ensures Plain(xs + [x]) == Plain(xs) + if x.time.None? then [x] else []
  {
    assert (xs + [x])[..|xs|] == xs;
  }

  lemma {:induction false} IdleFirstPermutes(j: seq<int>, xs: seq<Stamp>)
    requires multiset(j) == multiset(TallyOf(xs).idle)
    ensures multiset(IdleFirst(j, xs)) == multiset(xs)
  {
    Sorted(xs);
    ApplyPermutation(Idle, j, TallyOf(xs).idle);
  }

  lemma BusyFirstPermutes(xs: seq<Stamp>)
    ensures multiset(BusyFirst(xs)) == multiset(xs)
  {
    Sorted(xs);
  }

  lemma {:induction false} PlainKeeps(a: Stamp, xs: seq<Stamp>)
    requires forall i :: 0 <= i < |xs| ==> xs[i].time.None?
    ensures Resume(a, xs).time == a.time && (a.busy ==> Resume(a, xs).busy)
  {
    if xs != [] {
      PlainKeeps(a, xs[..|xs| - 1]);
    }
  }

  lemma {:induction false} Frozen(a: Stamp, xs: seq<Stamp>)
    requires a == Stamp(None, true)
    ensures Resume(a, xs) == a
  {
    if xs != [] {
      Frozen(a, xs[..|xs| - 1]);
    }
  }

  /** Idle stamps never count requests. */
  lemma {:induction false} IdleRun(j: seq<int>)
    ensures !Follow(Apply(Idle, j)).busy && TallyOf(Apply(Idle, j)) == Tally(j, [], false)
  {
    if j != [] {
      var n := |j| - 1;
      IdleRun(j[..n]);
      assert Apply(Idle, j)[..n] == Apply(Idle, j[..n]);
    }
  }

  lemma IdleMore(j: seq<int>, t: int)
    ensures Follow(Apply(Idle, j + [t])) == Step(Follow(Apply(Idle, j)), Idle(t))
  {
    assert Apply(Idle, j + [t]) == Apply(Idle, j) + [Idle(t)];
    assert (Apply(Idle, j) + [Idle(t)])[..|j|] == Apply(Idle, j);
  }

  lemma {:induction false} BusyRun(a: Stamp, b: seq<int>, t: int)
    requires b != [] && Only(b, t) && !a.busy && (a.time == None || a.time == Some(t))
    ensures Resume(a, Apply(Busy, b)) == Busy(t)
  {
    var n := |b| - 1;
    assert Apply(Busy, b)[..n] == Apply(Busy, b[..n]);
    if n > 0 {
      BusyRun(a, b[..n], t);
    }
  }

  lemma {:induction false} Clash(t: int, j: seq<int>)
    ensures Resume(Busy(t), Apply(Idle, j)) == if Only(j, t) then Busy(t) else Stamp(None, true)
  {
    if j != [] {
      var n := |j| - 1;
      Clash(t, j[..n]);
      assert Apply(Idle, j)[..n] == Apply(Idle, j[..n]);
      if Only(j[..n], t) && j[n] == t {
        assert forall i :: 0 <= i < n ==> j[i] == j[..n][i];
      } else if !Only(j[..n], t) {
        var i :| 0 <= i < n && j[..n][i] != t;
        assert j[i] != t;
      }
    }
  }

  /** Idle times first, all busy ones being t: the end is t if the idle ones end with nothing or with t. */
  lemma {:induction false} EndsBusy(j: seq<int>, xs: seq<Stamp>, t: int)
    requires TallyOf(xs).busy != [] && Only(TallyOf(xs).busy, t)
    requires var a := Follow(Apply(Idle, j)); a.time == None || a.time == Some(t)
    ensures Follow(IdleFirst(j, xs)).time == Some(t)
  {
    IdleRun(j);
    FollowResume(Apply(Idle, j), Apply(Busy, TallyOf(xs).busy));
    BusyRun(Follow(Apply(Idle, j)), TallyOf(xs).busy, t);
    FollowResume(Apply(Idle, j) + Apply(Busy, TallyOf(xs).busy), Plain(xs));
    PlainKeeps(Busy(t), Plain(xs));
  }

  /** Without busy times the idle ones decide. */
  lemma {:induction false} EndsIdle(j: seq<int>, xs: seq<Stamp>)
    requires TallyOf(xs).busy == []
    ensures Follow(IdleFirst(j, xs)).time == Follow(Apply(Idle, j)).time
  {
    assert IdleFirst(j, xs) == Apply(Idle, j) + Plain(xs);
    FollowResume(Apply(Idle, j), Plain(xs));
    PlainKeeps(Follow(Apply(Idle, j)), Plain(xs));
  }

  lemma {:induction false} EndsNowhere(xs: seq<Stamp>, t: int)
    requires TallyOf(xs).busy != [] && Only(TallyOf(xs).busy, t) && !Only(TallyOf(xs).idle, t)
    ensures Follow(BusyFirst(xs)).time == None
  {
    var b, i := Apply(Busy, TallyOf(xs).busy), Apply(Idle, TallyOf(xs).idle);
    FollowResume([], b);
    assert [] + b == b;
    BusyRun(IDLE, TallyOf(xs).busy, t);
    FollowResume(b, i);
    Clash(t, TallyOf(xs).idle);
    FollowResume(b + i, Plain(xs));
    Frozen(Stamp(None, true), Plain(xs));
  }

  // ----- Idle times only

  lemma DistinctEven(j: seq<int>)
    requires AllDiffer(j) && |j| % 2 == 0
    ensures Follow(Apply(Idle, j)) == IDLE
  {
    IdleRun(j);
    RunToggles(Apply(Idle, j), None);
  }

  lemma DistinctOdd(j: seq<int>)
    requires AllDiffer(j) && |j| % 2 == 1
    ensures Follow(Apply(Idle, j)).time == Some(j[|j| - 1])
  {
    var n := |j| - 1;
    DistinctEven(j[..n]);
    assert j == j[..n] + [j[n]];
    IdleMore(j[..n], j[n]);
  }

  /** Two equal times and another one can be ordered to end with nothing, and to end with the repeated time. */
  lemma ThreeMore(r: seq<int>, a: int, b: int)
    requires a != b
    ensures Follow(Apply(Idle, r + [a, a, b])).time == None
    ensures Follow(Apply(Idle, r + [b, a, a])).time == Some(a)
  {
    IdleRun(r);
    assert r + [a, a, b] == r + [a] + [a] + [b] && r + [b, a, a] == r + [b] + [a] + [a];
    IdleMore(r, a);
    IdleMore(r + [a], a);
    IdleMore(r + [a] + [a], b);
    IdleMore(r, b);
    IdleMore(r + [b], a);
    IdleMore(r + [b] + [a], a);
  }

  /** Element i may be moved to the end. */
  lemma MovedBack(s: seq<int>, i: nat)
    requires i < |s|
    ensures multiset(WithoutAt(s, i) + [s[i]]) == multiset(s)
  {
    Removed(s, i);
  }

  lemma Regrouped(r: seq<int>, a: int, b: int)
    ensures multiset(r + [b] + [a] + [a]) == multiset(r + [a, a, b])
    ensures multiset(r + [b] + [a] + [a]) == multiset(r + [b, a, a])
  {
    assert r + [b] + [a] + [a] == r + [b, a, a];
    assert r + [a, a, b] == r + [a] + [a] + [b];
  }

  lemma PullThree(s: seq<int>, i: nat, j: nat, k: nat) returns (r: seq<int>)
    requires i < j < |s| && k < |s| && s[i] == s[j] != s[k]
    ensures multiset(r + [s[i], s[i], s[k]]) == multiset(s) == multiset(r + [s[k], s[i], s[i]])
  {
    var s1 := WithoutAt(s, j);
    var k1 := if k < j then k else k - 1;
    assert s1[i] == s[i] && s1[k1] == s[k];
    var s2 := WithoutAt(s1, i);
    var k2 := if k1 < i then k1 else k1 - 1;
    assert s2[k2] == s[k];
    r := WithoutAt(s2, k2);
    MovedBack(s, j);
    MovedBack(s1, i);
    MovedBack(s2, k2);
    Regrouped(r, s[i], s[k]);
    hide WithoutAt;
    BagMore(s2 + [s[i]], s1, [s[i]]);
    BagMore(r + [s[k]], s2, [s[i]]);
    BagMore(r + [s[k]] + [s[i]], s2 + [s[i]], [s[i]]);
  }

  lemma BagMore(a: seq<int>, b: seq<int>, c: seq<int>)
    requires multiset(a) == multiset(b)
    ensures multiset(a + c) == multiset(b + c)
  {
  }

  // ----- Stamps that are not settled

  /** Two orders of the same stamps that end differently. */
  ghost predicate Differ(xs: seq<Stamp>, p: seq<Stamp>, q: seq<Stamp>) {
    multiset(p) == multiset(xs) && multiset(q) == multiset(xs) && Follow(p).time != Follow(q).time
  }

  lemma {:induction false} UntimedAt(xs: seq<Stamp>) returns (i: nat)
    requires TallyOf(xs).untimed
    ensures i < |xs| && xs[i] == Stamp(None, true)
  {
    var n := |xs| - 1;
    if xs[n] == Stamp(None, true) {
      i := n;
    } else {
      i := UntimedAt(xs[..n]);
    }
  }

  /** A busy stamp without a time, merged first, leaves no time. */
  lemma UntimedFirst(xs: seq<Stamp>, i: nat)
    requires i < |xs| && xs[i] == Stamp(None, true)
    ensures Follow([xs[i]] + WithoutAt(xs, i)).time == None
  {
    FollowResume([xs[i]], WithoutAt(xs, i));
    assert Follow([xs[i]]) == Stamp(None, true) by { assert [xs[i]][..0] == []; }
    Frozen(Stamp(None, true), WithoutAt(xs, i));
  }

  /** Merging the stamps with a time first keeps the one there is. */
  lemma {:induction false} TimedFirst(xs: seq<Stamp>, t: int)
    requires TallyOf(xs).All() != [] && Only(TallyOf(xs).idle, t) && Only(TallyOf(xs).busy, t)
    ensures Follow(IdleFirst(TallyOf(xs).idle, xs)).time == Some(t)
  {
    var c := TallyOf(xs);
    var timed := Apply(Idle, c.idle) + Apply(Busy, c.busy);
    TimedCount(c.idle, c.busy);
    RunConstant(timed, t);
    FollowResume(timed, Plain(xs));
    PlainKeeps(Follow(timed), Plain(xs));
  }

  /** One time, and somewhere requests were counted without it. */
  lemma OneTimeDiffers(xs: seq<Stamp>, t: int) returns (p: seq<Stamp>, q: seq<Stamp>)
    requires TallyOf(xs).untimed && TallyOf(xs).All() != [] && Only(TallyOf(xs).idle, t) && Only(TallyOf(xs).busy, t)
    ensures Differ(xs, p, q)
  {
    var i := UntimedAt(xs);
    p, q := [xs[i]] + WithoutAt(xs, i), IdleFirst(TallyOf(xs).idle, xs);
    UntimedFirst(xs, i);
    TimedFirst(xs, t);
    hide Follow, IdleFirst, WithoutAt;
    MovedFront(xs, i);
    IdleFirstPermutes(TallyOf(xs).idle, xs);
  }

  lemma TimedCount(j: seq<int>, b: seq<int>)
    ensures TallyOf(Apply(Idle, j) + Apply(Busy, b)) == Tally(j, b, false)
  {
    TallyAppend(Apply(Idle, j), Apply(Busy, b));
    IdleRun(j);
    BusyCount(b);
  }

  lemma {:induction false} BusyCount(b: seq<int>)
    ensures TallyOf(Apply(Busy, b)) == Tally([], b, false)
  {
    if b != [] {
      var n := |b| - 1;
      BusyCount(b[..n]);
      assert Apply(Busy, b)[..n] == Apply(Busy, b[..n]);
    }
  }

  /** An odd number of different idle times: the last one stays. */
  lemma OddDiffers(xs: seq<Stamp>) returns (p: seq<Stamp>, q: seq<Stamp>)
    requires TallyOf(xs).busy == [] && AllDiffer(TallyOf(xs).idle)
    requires |TallyOf(xs).idle| % 2 == 1 && |TallyOf(xs).idle| > 1
    ensures Differ(xs, p, q)
  {
    var j, n := TallyOf(xs).idle, |TallyOf(xs).idle| - 1;
    var k := j[n := j[n - 1]][n - 1 := j[n]];
    assert multiset(k) == multiset(j);
    p, q := IdleFirst(j, xs), IdleFirst(k, xs);
    IdleFirstPermutes(j, xs);
    IdleFirstPermutes(k, xs);
    EndsIdle(j, xs);
    EndsIdle(k, xs);
    DistinctOdd(j);
    DistinctPermutes(j, k);
    DistinctOdd(k);
  }

  /** A repeated idle time and another one. */
  lemma RepeatDiffers(xs: seq<Stamp>, i: nat, j: nat, k: nat) returns (p: seq<Stamp>, q: seq<Stamp>)
    requires var s := TallyOf(xs).idle; TallyOf(xs).busy == [] && i < j < |s| && k < |s| && s[i] == s[j] != s[k]
    ensures Differ(xs, p, q)
  {
    var s := TallyOf(xs).idle;
    var r := PullThree(s, i, j, k);
    var u, w := r + [s[i], s[i], s[k]], r + [s[k], s[i], s[i]];
    ThreeMore(r, s[i], s[k]);
    p, q := IdleFirst(u, xs), IdleFirst(w, xs);
    IdleFirstPermutes(u, xs);
    IdleFirstPermutes(w, xs);
    EndsIdle(u, xs);
    EndsIdle(w, xs);
  }

  /** All busy stamps have t, some idle one another time, and the idle ones can end with nothing or with t. */
  lemma BusyDiffers(xs: seq<Stamp>, t: int, j: seq<int>) returns (p: seq<Stamp>, q: seq<Stamp>)
    requires TallyOf(xs).busy != [] && Only(TallyOf(xs).busy, t) && !Only(TallyOf(xs).idle, t)
    requires multiset(j) == multiset(TallyOf(xs).idle)
    requires var a := Follow(Apply(Idle, j)); a.time == None || a.time == Some(t)
    ensures Differ(xs, p, q)
  {
    p, q := BusyFirst(xs), IdleFirst(j, xs);
    BusyFirstPermutes(xs);
    IdleFirstPermutes(j, xs);
    EndsNowhere(xs, t);
    EndsBusy(j, xs, t);
  }

  /** Idle times that can be ordered so. */
  lemma IdleOrder(s: seq<int>, t: int) returns (j: seq<int>)
    requires t in s || (!AllEqual(s) && !AllDiffer(s)) || (AllDiffer(s) && |s| % 2 == 0)
    ensures multiset(j) == multiset(s)
    ensures var a := Follow(Apply(Idle, j)); a.time == None || a.time == Some(t)
  {
    if t in s {
      var i :| 0 <= i < |s| && s[i] == t;
      j := WithoutAt(s, i) + [t];
      MovedBack(s, i);
      IdleRun(WithoutAt(s, i));
      IdleMore(WithoutAt(s, i), t);
    } else if AllDiffer(s) && |s| % 2 == 0 {
      j := s;
      DistinctEven(s);
    } else {
      var m, n, k := Repeated(s);
      var r := PullThree(s, m, n, k);
      j := r + [s[m], s[m], s[k]];
      ThreeMore(r, s[m], s[k]);
    }
  }

  lemma Repeated(s: seq<int>) returns (i: nat, j: nat, k: nat)
    requires !AllEqual(s) && !AllDiffer(s)
    ensures i < j < |s| && k < |s| && s[i] == s[j] != s[k]
  {
    i, j :| 0 <= i < j < |s| && s[i] == s[j];
    var m, n :| 0 <= m < n < |s| && s[m] != s[n];
    k := if s[m] == s[i] then n else m;
  }

  lemma UnsettledDiffers(xs: seq<Stamp>) returns (p: seq<Stamp>, q: seq<Stamp>)
    requires !Settled(TallyOf(xs))
    ensures Differ(xs, p, q)
  {
    var c := TallyOf(xs);
    hide Follow, TallyOf, Differ;
    if AllEqual(c.All()) {
      AllEqualParts(c);
      p, q := OneTimeDiffers(xs, c.All()[0]);
    } else if c.busy == [] {
      assert c.All() == c.idle;
      if AllDiffer(c.idle) {
        assert |c.idle| > 1;
        p, q := OddDiffers(xs);
      } else {
        var i, j, k := Repeated(c.idle);
        p, q := RepeatDiffers(xs, i, j, k);
      }
    } else {
      var t := c.busy[0];
      OtherIdle(c);
      if !NoneEqual(c.idle, c.busy) {
        var m, n :| 0 <= m < |c.idle| && 0 <= n < |c.busy| && c.idle[m] == c.busy[n];
        assert c.idle[m] == t;
      }
      var j := IdleOrder(c.idle, t);
      p, q := BusyDiffers(xs, t, j);
    }
  }

  lemma AllEqualParts(c: Tally)
    requires AllEqual(c.All()) && c.All() != []
    ensures Only(c.idle, c.All()[0]) && Only(c.busy, c.All()[0])
  {
    assert forall i :: 0 <= i < |c.idle| ==> c.idle[i] == c.All()[i];
    assert forall i :: 0 <= i < |c.busy| ==> c.busy[i] == c.All()[|c.idle| + i];
  }

  lemma OtherIdle(c: Tally)
    requires !AllEqual(c.All()) && AllEqual(c.busy) && c.busy != []
    ensures Only(c.busy, c.busy[0]) && !Only(c.idle, c.busy[0])
  {
  }

  // ----- The exact condition

  /** The final time is the same for every order of these stamps. */
  ghost predicate Free(xs: seq<Stamp>) {
    forall ys :: multiset(ys) == multiset(xs) ==> Follow(ys).time == Follow(xs).time
  }

  lemma {:induction false} FreeIff(xs: seq<Stamp>)
    ensures Free(xs) <==> Settled(TallyOf(xs))
  {
    if Settled(TallyOf(xs)) {
      forall ys: seq<Stamp> | multiset(ys) == multiset(xs) ensures Follow(ys).time == Follow(xs).time {
        SettledFree(xs, ys);
      }
    } else {
      var p, q := UnsettledDiffers(xs);
    }
  }
}
