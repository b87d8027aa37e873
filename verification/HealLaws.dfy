/** What `BgHealState.Merge` promises. */
module HealLaws {
  import opened Basics
  import opened HealStates
  import opened HealMerge

  lemma {:induction false} ViewDisks<Disk>(sets: seq<SetStatus<Disk>>, k: Key)
    ensures match Extend(Absent, sets, k)
            case Absent => DisksOf(sets, k) == []
            case Present(_, disks) => disks == DisksOf(sets, k)
  {
    if sets != [] {
      ViewDisks(sets[..|sets| - 1], k);
    }
  }

  /** No disk is lost, duplicated or misfiled: the receiver's come first, then the others' in argument order. */
  lemma {:induction false} KeysAndDisks<Disk>(b: State<Disk>, others: seq<State<Disk>>, r: State<Disk>)
    requires Merges(b, others, r)
    ensures forall k: Key :: HasKey(r.sets, k) <==> HasKey(b.sets, k) || HasKey(AllSets(others), k)
    ensures forall k: Key :: DisksOf(r.sets, k) == DisksOf(b.sets, k) + DisksOf(AllSets(others), k)
  {
    forall k: Key
      ensures HasKey(r.sets, k) <==> HasKey(b.sets, k) || HasKey(AllSets(others), k)
      ensures DisksOf(r.sets, k) == DisksOf(b.sets, k) + DisksOf(AllSets(others), k)
    {
      var all := b.sets + AllSets(others);
      ViewAbsent(r.sets, k);
      ViewAbsent(all, k);
      ViewDisks(r.sets, k);
      ViewDisks(all, k);
      DisksAppend(b.sets, AllSets(others), k);
      assert Extend(Absent, r.sets, k) == Extend(Absent, all, k);
      if s :| s in b.sets && s.key == k { assert s in all; }
      if s :| s in AllSets(others) && s.key == k { assert s in all; }
    }
  }

  // ----- Is every disk there once?

  /** No two of these disks have the same identity, whatever identifies a disk. */
  ghost predicate Once<Disk, Id>(id: Disk -> Id, disks: seq<Disk>) {
    forall p, q :: 0 <= p < q < |disks| ==> id(disks[p]) != id(disks[q])
  }

  ghost predicate NoneShared<Disk, Id>(id: Disk -> Id, xs: seq<Disk>, ys: seq<Disk>) {
    forall x <- xs, y <- ys :: id(x) != id(y)
  }

  /** No identity comes twice under this key: not within a status, and not in two of them. */
  ghost predicate NoRepeats<Disk, Id>(id: Disk -> Id, sets: seq<SetStatus<Disk>>, k: Key) {
    && (forall i :: 0 <= i < |sets| && sets[i].key == k ==> Once(id, sets[i].disks))
    && (forall i, j :: 0 <= i < j < |sets| && sets[i].key == k == sets[j].key ==>
      NoneShared(id, sets[i].disks, sets[j].disks))
  }

  lemma OnceAppend<Disk, Id>(id: Disk -> Id, xs: seq<Disk>, ys: seq<Disk>)
    ensures Once(id, xs + ys) <==> Once(id, xs) && Once(id, ys) && NoneShared(id, xs, ys)
  {
    var zs := xs + ys;
    if Once(id, zs) {
      forall p, q | 0 <= p < q < |xs| ensures id(xs[p]) != id(xs[q]) {
        assert zs[p] == xs[p] && zs[q] == xs[q];
      }
      forall p, q | 0 <= p < q < |ys| ensures id(ys[p]) != id(ys[q]) {
        assert zs[|xs| + p] == ys[p] && zs[|xs| + q] == ys[q];
      }
      forall x <- xs, y <- ys ensures id(x) != id(y) {
        var p :| 0 <= p < |xs| && xs[p] == x;
        var q :| 0 <= q < |ys| && ys[q] == y;
        assert zs[p] == x && zs[|xs| + q] == y;
      }
    }
  }

  lemma {:induction false} NoneSharedWithAll<Disk, Id>(
    id: Disk -> Id, sets: seq<SetStatus<Disk>>, k: Key, ys: seq<Disk>)
    ensures NoneShared(id, DisksOf(sets, k), ys) <==>
      forall i :: 0 <= i < |sets| && sets[i].key == k ==> NoneShared(id, sets[i].disks, ys)
  {
    if sets != [] {
      var n := |sets| - 1;
      var mine := if sets[n].key == k then sets[n].disks else [];
      NoneSharedWithAll(id, sets[..n], k, ys);
      NoneSharedAppend(id, DisksOf(sets[..n], k), mine, ys);
    }
  }

  lemma NoneSharedAppend<Disk, Id>(id: Disk -> Id, xs: seq<Disk>, more: seq<Disk>, ys: seq<Disk>)
    ensures NoneShared(id, xs + more, ys) <==> NoneShared(id, xs, ys) && NoneShared(id, more, ys)
  {
    assert forall x <- xs :: x in xs + more;
    assert forall x <- more :: x in xs + more;
  }

  lemma {:induction false} OnceNoRepeats<Disk, Id>(id: Disk -> Id, sets: seq<SetStatus<Disk>>, k: Key)
    ensures Once(id, DisksOf(sets, k)) <==> NoRepeats(id, sets, k)
  {
    hide Once, NoneShared;
    if sets != [] {
      var n := |sets| - 1;
      OnceNoRepeats(id, sets[..n], k);
      if sets[n].key == k {
        OnceAppend(id, DisksOf(sets[..n], k), sets[n].disks);
        NoneSharedWithAll(id, sets[..n], k, sets[n].disks);
        assert forall i :: 0 <= i < n ==> sets[..n][i] == sets[i];
      } else {
        assert DisksOf(sets, k) == DisksOf(sets[..n], k);
      }
    } else {
      assert Once(id, DisksOf(sets, k)) by { NothingOnce(id); }
    }
  }

  lemma NothingOnce<Disk, Id>(id: Disk -> Id)
    ensures Once(id, [])
  {
  }

  /** A set whose keys are unique holds exactly the disks of its key. */
  lemma {:induction false} DisksAt<Disk>(sets: seq<SetStatus<Disk>>, i: nat)
    requires Strict(sets) && i < |sets|
    ensures DisksOf(sets, sets[i].key) == sets[i].disks
  {
    ViewAt(sets, i);
    ViewDisks(sets, sets[i].key);
  }

  /** Each of these sets holds every disk at most once. */
  ghost predicate AllOnce<Disk, Id>(id: Disk -> Id, sets: seq<SetStatus<Disk>>) {
    forall i :: 0 <= i < |sets| ==> Once(id, sets[i].disks)
  }

  /** No identity comes twice under one key. */
  ghost predicate NeverRepeats<Disk, Id>(id: Disk -> Id, sets: seq<SetStatus<Disk>>) {
    forall k: Key :: NoRepeats(id, sets, k)
  }

  /**
   Each set of the result holds every disk at most once if and only if no identity repeats under its key
   among the receiver and the others: the merge itself neither finds nor drops a repeated disk.
   */
  lemma {:induction false} DisksOnceIff<Disk, Id>(
      b: State<Disk>, others: seq<State<Disk>>, r: State<Disk>, id: Disk -> Id)
    requires Merges(b, others, r)
    ensures AllOnce(id, r.sets) <==> NeverRepeats(id, b.sets + AllSets(others))
  {
    hide AllOnce, NeverRepeats, Merges, AllSets;
    if AllOnce(id, r.sets) {
      OnceNeverRepeats(b, others, r, id);
    }
    if NeverRepeats(id, b.sets + AllSets(others)) {
      NeverRepeatsOnce(b, others, r, id);
    }
  }

  lemma {:induction false} NeverRepeatsOnce<Disk, Id>(
      b: State<Disk>, others: seq<State<Disk>>, r: State<Disk>, id: Disk -> Id)
    requires Merges(b, others, r) && NeverRepeats(id, b.sets + AllSets(others))
    ensures AllOnce(id, r.sets)
  {
    hide Once, NoRepeats, Merges, Strict, AllSets, DisksOf;
    forall i | 0 <= i < |r.sets| ensures Once(id, r.sets[i].disks) {
      OnceAtKey(b, others, r, id, r.sets[i].key);
      DisksAt(r.sets, i);
    }
  }

  lemma {:induction false} OnceNeverRepeats<Disk, Id>(
      b: State<Disk>, others: seq<State<Disk>>, r: State<Disk>, id: Disk -> Id)
    requires Merges(b, others, r) && AllOnce(id, r.sets)
    ensures NeverRepeats(id, b.sets + AllSets(others))
  {
    hide Once, NoRepeats, Merges, Strict, AllSets, DisksOf;
    forall k: Key ensures NoRepeats(id, b.sets + AllSets(others), k) {
      OnceAtKey(b, others, r, id, k);
      if i :| 0 <= i < |r.sets| && r.sets[i].key == k {
        DisksAt(r.sets, i);
      } else {
        assert forall s <- r.sets :: s.key != k;
        NoDisks(r.sets, k);
        NothingOnce(id);
      }
    }
  }

  lemma {:induction false} OnceAtKey<Disk, Id>(
      b: State<Disk>, others: seq<State<Disk>>, r: State<Disk>, id: Disk -> Id, k: Key)
    requires Merges(b, others, r)
    ensures Once(id, DisksOf(r.sets, k)) <==> NoRepeats(id, b.sets + AllSets(others), k)
    ensures Strict(r.sets)
  {
    KeysAndDisks(b, others, r);
    hide Once, NoRepeats, DisksOf;
    DisksAppend(b.sets, AllSets(others), k);
    OnceNoRepeats(id, b.sets + AllSets(others), k);
  }

  lemma {:induction false} NoDisks<Disk>(sets: seq<SetStatus<Disk>>, k: Key)
    requires forall s <- sets :: s.key != k
    ensures DisksOf(sets, k) == []
  {
    if sets != [] {
      NoDisks(sets[..|sets| - 1], k);
    }
  }

  /** The label of the first status with this key. */
  function FirstLabel<Disk>(sets: seq<SetStatus<Disk>>, k: Key): Option<Label> {
    if sets == [] then None
    else if sets[0].key == k then Some(sets[0].head)
    else FirstLabel(sets[1..], k)
  }

  lemma {:induction false} FirstLabelMore<Disk>(sets: seq<SetStatus<Disk>>, s: SetStatus<Disk>, k: Key)
    ensures FirstLabel(sets + [s], k) ==
      if FirstLabel(sets, k).Some? then FirstLabel(sets, k) else if s.key == k then Some(s.head) else None
  {
    if sets != [] {
      assert (sets + [s])[1..] == sets[1..] + [s];
      FirstLabelMore(sets[1..], s, k);
    }
  }

  lemma {:induction false} ViewLabel<Disk>(sets: seq<SetStatus<Disk>>, k: Key)
    ensures match Extend(Absent, sets, k)
            case Absent => FirstLabel(sets, k) == None
            case Present(head, _) => FirstLabel(sets, k) == Some(head)
  {
    if sets != [] {
      var n := |sets| - 1;
      ViewLabel(sets[..n], k);
      FirstLabelMore(sets[..n], sets[n], k);
      assert sets == sets[..n] + [sets[n]];
    }
  }

  /** Every set keeps the label it came with first. */
  lemma {:induction false} FirstLabelsKept<Disk>(b: State<Disk>, others: seq<State<Disk>>, r: State<Disk>)
    requires Merges(b, others, r)
    ensures forall k: Key :: FirstLabel(r.sets, k) == FirstLabel(b.sets + AllSets(others), k)
  {
    forall k: Key ensures FirstLabel(r.sets, k) == FirstLabel(b.sets + AllSets(others), k) {
      ViewLabel(r.sets, k);
      ViewLabel(b.sets + AllSets(others), k);
      assert Extend(Absent, r.sets, k) == Extend(Absent, b.sets + AllSets(others), k);
    }
  }

  /** The number of nodes up to the last that reports this endpoint; 0 if none does. */
  function LastReporter<Disk>(others: seq<State<Disk>>, endpoint: string): (n: nat)
    ensures n <= |others| && (n > 0 ==> endpoint in Entries(others[n - 1].mrf))
    ensures forall j :: n <= j < |others| ==> endpoint !in Entries(others[j].mrf)
  {
    if others == [] || endpoint in Entries(others[|others| - 1].mrf) then |others|
    else LastReporter(others[..|others| - 1], endpoint)
  }

  /** The status of an endpoint is the one the last node reports, or else the receiver's. */
  ghost predicate LastReported<Disk>(
    mine: map<string, MRFStatus>, others: seq<State<Disk>>, endpoint: string, m: map<string, MRFStatus>)
  {
    var n := LastReporter(others, endpoint);
    var from := if n > 0 then Entries(others[n - 1].mrf) else mine;
    (endpoint in m <==> endpoint in from) && (endpoint in m ==> m[endpoint] == from[endpoint])
  }

  lemma LastStatusWins<Disk>(b: State<Disk>, others: seq<State<Disk>>, r: State<Disk>, endpoint: string)
    requires Merges(b, others, r)
    ensures r.mrf.Some? && LastReported(Entries(b.mrf), others, endpoint, Entries(r.mrf))
  {
    hide Strict, SameViews, LastReported;
    StatusSteps(Begin(b, others), others, endpoint);
    assert r.mrf == Rest(b, others).mrf;
  }

  lemma {:induction false} StatusSteps<Disk>(b: State<Disk>, others: seq<State<Disk>>, endpoint: string)
    ensures LastReported(Entries(b.mrf), others, endpoint, Entries(Steps(b, others).mrf))
  {
    if others != [] {
      StatusSteps(b, others[..|others| - 1], endpoint);
    }
  }

  /** The parities are the receiver's if it has any, else those of the first node. */
  lemma FirstParities<Disk>(b: State<Disk>, others: seq<State<Disk>>, r: State<Disk>)
    requires Merges(b, others, r)
    ensures b.scParity.Some? || others == [] ==> r.scParity == b.scParity
    ensures b.scParity.None? && others != [] ==> r.scParity == Some(Entries(others[0].scParity))
  {
  }

  /** Scanned items add up, offline endpoints follow in argument order, and the healing disks stay the receiver's. */
  lemma {:induction false} CountsAndEndpoints<Disk>(b: State<Disk>, others: seq<State<Disk>>, r: State<Disk>)
    requires Merges(b, others, r)
    ensures r.scannedItemsCount == b.scannedItemsCount + Scanned(others)
    ensures r.offlineEndpoints == b.offlineEndpoints + Offline(others)
    ensures r.healDisks == b.healDisks
  {
    hide Strict, SameViews, Rest;
    RestGathers(b, others);
    assert r.scannedItemsCount == Rest(b, others).scannedItemsCount;
  }

  /** By pool first and then by set, each pair once. */
  lemma {:induction false} OrderedByPoolAndSet<Disk>(b: State<Disk>, others: seq<State<Disk>>, r: State<Disk>)
    requires Merges(b, others, r)
    ensures forall i, j :: 0 <= i < j < |r.sets| ==>
      && r.sets[i].key.pool <= r.sets[j].key.pool
      && (r.sets[i].key.pool == r.sets[j].key.pool ==> r.sets[i].key.index < r.sets[j].key.index)
  {
    hide SameViews, Rest;
  }

  /** There is only one result. */
  lemma MergesDetermined<Disk>(b: State<Disk>, others: seq<State<Disk>>, x: State<Disk>, y: State<Disk>)
    requires Merges(b, others, x) && Merges(b, others, y)
    ensures x == y
  {
    StrictDetermined(x.sets, y.sets);
  }

  lemma OneMore<Disk>(b: State<Disk>, others: seq<State<Disk>>, o: State<Disk>, x: State<Disk>, y: State<Disk>)
    requires others != [] && Merges(b, others, x) && Merges(x, [o], y)
    ensures Merges(b, others + [o], y)
  {
    assert Begin(x, [o]) == x.(sets := []) == Steps(Begin(b, others), others);
    assert Begin(b, others + [o]) == Begin(b, others);
    StepsMore(Begin(b, others), others, o);
    StepsMore(Begin(x, [o]), [], o);
    AllSetsMore([], o);
    assert [] + [o] == [o] && AllSets([o]) == o.sets;
    var all := b.sets + AllSets(others);
    SameViewsMore(x.sets, all, o.sets);
    SameViewsTrans(y.sets, x.sets + o.sets, all + o.sets);
    AllSetsBehind(b.sets, others, o);
  }

  /**
   One merge of all nodes leaves what merging them one after the other leaves, although each of these
   merges sorts and only the very first may set the parities.
   */
  lemma {:induction false} AllAtOnceOrOneByOne<Disk>(
    b: State<Disk>, others: seq<State<Disk>>, r: State<Disk>, run: seq<State<Disk>>)
    requires others != [] && Merges(b, others, r)
    requires |run| == |others| + 1 && run[0] == b
    requires forall i :: 0 <= i < |others| ==> Merges(run[i], [others[i]], run[i + 1])
    ensures r == run[|others|]
  {
    hide Merges;
    RunMerges(b, others, run);
    MergesDetermined(b, others, r, run[|others|]);
  }

  lemma {:induction false} RunMerges<Disk>(b: State<Disk>, others: seq<State<Disk>>, run: seq<State<Disk>>)
    requires others != [] && |run| == |others| + 1 && run[0] == b
    requires forall i :: 0 <= i < |others| ==> Merges(run[i], [others[i]], run[i + 1])
    ensures Merges(b, others, run[|others|])
  {
    hide Merges;
    var n := |others| - 1;
    if n == 0 {
      assert others == [others[0]];
    } else {
      RunMerges(b, others[..n], run[..n + 1]);
      OneMore(b, others[..n], others[n], run[n], run[n + 1]);
      assert others == others[..n] + [others[n]];
    }
  }
}
