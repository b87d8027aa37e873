/** heal-commands.go: `BgHealState.Merge`, a merge of erasure set states keyed by pool and set index. */
module HealMerge {
  import opened Basics
  import opened HealSlices
  import opened HealStates

  /** A BgHealState passed by value: its slices share their arrays with the caller's. */
  datatype Node<!Disk> = Node(
    offlineEndpoints: seq<string>, scannedItemsCount: int, healDisks: seq<string>, sets: seq<Held<Disk>>,
    mrf: Option<map<string, MRFStatus>>, scParity: Option<map<string, int>>)
  {
    /** Everything but the sets. */
    function Fields(): State<Disk> { State(offlineEndpoints, scannedItemsCount, healDisks, [], mrf, scParity) }

    ghost function Value(): State<Disk>
      requires AllValid(sets)
      reads Stores(sets)
    {
      Fields().(sets := Read(sets))
    }
  }

  ghost function AllHeld<Disk>(others: seq<Node<Disk>>): seq<Held<Disk>> {
    if others == [] then [] else AllHeld(others[..|others| - 1]) + others[|others| - 1].sets
  }

  /** These states are the values of these nodes. */
  ghost predicate HaveValues<Disk>(others: seq<Node<Disk>>, vs: seq<State<Disk>>)
    reads set o <- others, h <- o.sets :: h.disks.store
  {
    && |vs| == |others|
    && forall n :: 0 <= n < |others| ==> AllValid(others[n].sets) && vs[n] == others[n].Value()
  }

  class BgHealState<Disk(0)> {
    var offlineEndpoints: seq<string>
    var scannedItemsCount: int
    var healDisks: seq<string>
    var sets: seq<Held<Disk>>
    var mrf: Option<map<string, MRFStatus>>
    var scParity: Option<map<string, int>>

    /** Everything but the sets. */
    ghost function Fields(): State<Disk>
      reads this
    {
      State(offlineEndpoints, scannedItemsCount, healDisks, [], mrf, scParity)
    }

    ghost function Contents(): State<Disk>
      requires AllValid(sets)
      reads this, Stores(sets)
    {
      Fields().(sets := Read(sets))
    }

    constructor (n: Node<Disk>)
      ensures sets == n.sets && (AllValid(n.sets) ==> Contents() == n.Value())
    {
      offlineEndpoints, scannedItemsCount, healDisks := n.offlineEndpoints, n.scannedItemsCount, n.healDisks;
      sets, mrf, scParity := n.sets, n.mrf, n.scParity;
    }

    /**
     The keys come out ordered and the other fields as specified in any case.  If no two slices have room to
     write in one array, no disk is lost, misfiled or changed, here or in any other slice; and with unique
     keys in the receiver the result is fully determined.
     */
    method Merge(others: seq<Node<Disk>>, ghost b: State<Disk>, ghost vs: seq<State<Disk>>, ghost w: World<Disk>)
      requires AllValid(sets) && b == Contents() && HaveValues(others, vs)
      requires w.Valid() && w.more == AllHeld(others)
      modifies this, Stores(sets), Stores(w.more)
      ensures AllValid(sets) && Fields() == Rest(b, vs)
      ensures scannedItemsCount == b.scannedItemsCount + Scanned(vs) && healDisks == b.healDisks
      ensures offlineEndpoints == b.offlineEndpoints + Offline(vs)
      ensures forall i, j :: 0 <= i < j < |sets| ==>
        && sets[i].key.pool <= sets[j].key.pool
        && (sets[i].key.pool == sets[j].key.pool ==> sets[i].key.index <= sets[j].key.index)
      ensures forall h <- sets :: h.disks.store in old(Stores(sets) + Stores(w.more)) || fresh(h.disks.store)
      ensures old(w.Fine(sets)) ==>
        && w.Fine(sets) && SameDisks(Read(sets), b.sets + AllSets(vs))
        && (Unique(b.sets) ==> Merges(b, vs, Contents()))
        && forall r <- w.foreign + w.readers :: r.Disks() == old(r.Disks())
    {
      hide SameViews, SameDisks, Unique, Strict, AllSets, Gathers, World.Fine, Read, AllHeld, Begin, Steps, Merges;
      ghost var room, fine := Stores(sets) + Stores(w.more), w.Fine(sets);
      forall o <- others, h <- o.sets ensures h in w.more { HeldOf(others, o); }
      BeginFields(b, vs);
      Prepare(others, vs);
      MergeNodes(others, vs, w, room);
      ghost var before := Read(sets);
      SortSets(w);
      RestGathers(b, vs);
      if fine {
        Finished(b.sets, before, Read(sets), b.sets + AllSets(vs));
        if Unique(b.sets) { MergesIs(b, vs, Contents()); }
      }
    }

    /** The parities are taken from the first node, unless they are known. */
    method Prepare(others: seq<Node<Disk>>, ghost vs: seq<State<Disk>>)
      requires SameFields(others, vs)
      modifies this
      ensures sets == old(sets) && mrf.Some? && Fields() == Begin(old(Fields()), vs)
    {
      if scParity.None? && |others| > 0 {
        var copy := CopyInto(map[], Entries(others[0].scParity));
        scParity := Some(copy);
        assert map[] + Entries(others[0].scParity) == Entries(others[0].scParity);
      }
      if mrf.None? {
        mrf := Some(map[]);
      }
    }

    /** The loop over the nodes, whose values are these. */
    method MergeNodes(
      others: seq<Node<Disk>>, ghost vs: seq<State<Disk>>, ghost w: World<Disk>, ghost room: set<array<Disk>>)
      requires AllValid(sets) && w.Valid() && mrf.Some? && SameFields(others, vs)
      requires forall o <- others, h <- o.sets :: h in w.more
      requires forall n :: 0 <= n < |others| ==> AllValid(others[n].sets) && vs[n].sets == Read(others[n].sets)
      requires forall h <- sets + w.more :: h.disks.store in room
      modifies this, room
      ensures AllValid(sets) && Fields() == Steps(old(Fields()), vs)
      ensures forall h <- sets :: h.disks.store in room || fresh(h.disks.store)
      ensures old(w.Fine(sets)) ==>
        && w.Fine(sets) && Gathers(old(Read(sets)), Read(sets), old(Read(sets)) + AllSets(vs))
        && forall r <- w.foreign + w.readers :: r.Disks() == old(r.Disks())
    {
      hide AllSets, Gathers, World.Fine, Read, Steps, Step;
      ghost var b, fields, fine := Read(sets), Fields(), w.Fine(sets);
      GathersNothing(b);
      AllSetsNone(b);
      NoSteps(fields);
      for n := 0 to |others|
        invariant AllValid(sets) && mrf.Some? && Fields() == Steps(fields, vs[..n])
        invariant forall h <- sets :: h.disks.store in room || fresh(h.disks.store)
        invariant fine ==> w.Fine(sets) && Gathers(b, Read(sets), b + AllSets(vs[..n]))
        invariant fine ==> forall r <- w.foreign + w.readers :: r.Disks() == old(r.Disks())
      {
        ghost var before := Read(sets);
        StepsMore(fields, vs[..n], vs[n]);
        StepFields(Fields(), others[n], vs[n]);
        assert vs[..n + 1] == vs[..n] + [vs[n]] && AllValid(others[n].sets);
        if fine {
          ReadersOf(sets, others[n].sets, w);
          assert forall i :: 0 <= i < |vs[n].sets| ==> Read(others[n].sets)[i] == vs[n].sets[i];
          assert Read(others[n].sets) == vs[n].sets;
        }
        MergeOne(others[n], w, room + Stores(sets));
        if fine {
          GathersMore(b, before, b + AllSets(vs[..n]), Read(sets), vs[n].sets);
          AllSetsBehind(b, vs[..n], vs[n]);
        }
      }
      assert vs[..|others|] == vs;
    }

    /** One round of the loop over the nodes. */
    method MergeOne(other: Node<Disk>, ghost w: World<Disk>, ghost room: set<array<Disk>>)
      requires mrf.Some? && AllValid(sets) && w.Valid() && forall s <- other.sets :: s in w.more
      requires forall h <- sets + w.more :: h.disks.store in room
      modifies this, room
      ensures AllValid(sets) && AllValid(other.sets) && Fields() == Step(old(Fields()), other.Fields())
      ensures forall h <- sets :: h.disks.store in room || fresh(h.disks.store)
      ensures old(w.Fine(sets)) ==>
        && w.Fine(sets) && Gathers(old(Read(sets)), Read(sets), old(Read(sets)) + old(Read(other.sets)))
        && forall r <- w.foreign + w.readers :: r.Disks() == old(r.Disks())
    {
      hide Gathers, World.Fine, Read;
      ghost var b, more := Read(sets), Read(other.sets);
      offlineEndpoints := offlineEndpoints + other.offlineEndpoints;
      var copy := CopyInto(mrf.value, Entries(other.mrf));
      mrf := Some(copy);
      scannedItemsCount := scannedItemsCount + other.scannedItemsCount;
      assert Read(sets) == b && Read(other.sets) == more;
      AddSets(other.sets, w, room);
    }

    method AddSets(more: seq<Held<Disk>>, ghost w: World<Disk>, ghost room: set<array<Disk>>)
      requires AllValid(sets) && w.Valid() && forall s <- more :: s in w.more
      requires forall h <- sets + w.more :: h.disks.store in room
      modifies this`sets, room
      ensures AllValid(sets) && AllValid(more)
      ensures forall h <- sets :: h.disks.store in room || fresh(h.disks.store)
      ensures old(w.Fine(sets)) ==>
        && w.Fine(sets) && Gathers(old(Read(sets)), Read(sets), old(Read(sets)) + old(Read(more)))
        && forall r <- w.foreign + w.readers :: r.Disks() == old(r.Disks())
    {
      hide Gathers, World.Fine, Read;
      ghost var b, v, fine := Read(sets), Read(more), w.Fine(sets);
      GathersNothing(b);
      assert b + v[..0] == b;
      for j := 0 to |more|
        invariant AllValid(sets)
        invariant forall h <- sets :: h.disks.store in room || fresh(h.disks.store)
        invariant fine ==> w.Fine(sets) && Gathers(b, Read(sets), b + v[..j])
        invariant fine ==> forall r <- w.foreign + w.readers :: r.Disks() == old(r.Disks())
      {
        ghost var before := Read(sets);
        if fine {
          LentIsRead(sets, more[j], w);
          assert more[j].Status() == v[j];
        }
        AddDisksFromSet(more[j], w);
        if fine {
          GathersMore(b, before, b + v[..j], Read(sets), [v[j]]);
          assert b + v[..j] + [v[j]] == b + v[..j + 1];
        }
      }
      assert v[..|more|] == v;
    }

    /** Add the disks of a set to the status that has its key, or add the whole status. */
    method AddDisksFromSet(status: Held<Disk>, ghost w: World<Disk>)
      requires AllValid(sets) && w.Valid() && status in w.more
      modifies this`sets, Stores(sets)
      ensures AllValid(sets)
      ensures forall h <- sets :: h.disks.store in old(Stores(sets)) || h == status || fresh(h.disks.store)
      ensures old(w.Fine(sets)) ==>
        && w.Fine(sets) && Gathers(old(Read(sets)), Read(sets), old(Read(sets)) + [old(status.Status())])
        && forall r <- w.foreign + w.readers :: r.Disks() == old(r.Disks())
    {
      hide Gathers, World.Fine, Read;
      var found := -1;
      for idx := 0 to |sets|
        invariant -1 <= found < idx
        invariant found == -1 ==> forall i :: 0 <= i < idx ==> sets[i].key != status.key
        invariant found != -1 ==> sets[found].key == status.key
      {
        if sets[idx].key.pool == status.key.pool && sets[idx].key.index == status.key.index {
          found := idx;
        }
      }
      if found == -1 {
        ghost var before := Read(sets);
        assert forall i :: 0 <= i < |sets| ==> before[i].key == sets[i].key;
        Adopt(status, w);
        NewStatus(before, status.Status());
      } else {
        ghost var before, more := Read(sets), status.Status();
        AppendDisks(found, status, w);
        DisksGathered(before, more, found);
      }
    }

    method Adopt(status: Held<Disk>, ghost w: World<Disk>)
      requires AllValid(sets) && w.Valid() && status in w.more && forall h <- sets :: h.key != status.key
      modifies this`sets
      ensures sets == old(sets) + [status] && AllValid(sets)
      ensures Read(sets) == old(Read(sets)) + [status.Status()]
      ensures old(w.Fine(sets)) ==> w.Fine(sets)
    {
      hide World.Fine;
      ghost var before := Read(sets);
      AdoptedFine(sets, status, w);
      sets := sets + [status];
      assert sets[..|sets| - 1] == old(sets);
      assert Read(sets) == before + [status.Status()];
    }

    method AppendDisks(found: nat, status: Held<Disk>, ghost w: World<Disk>)
      requires AllValid(sets) && w.Valid() && status in w.more && found < |sets| && sets[found].key == status.key
      modifies this`sets, Stores(sets)
      ensures AllValid(sets)
      ensures forall h <- sets :: h.disks.store in old(Stores(sets)) || fresh(h.disks.store)
      ensures old(w.Fine(sets)) ==>
        && w.Fine(sets) && Read(sets) == Added(old(Read(sets)), found, old(status.Status()))
        && forall r <- w.foreign + w.readers :: r.Disks() == old(r.Disks())
    {
      hide World.Fine, Read, Slices;
      ghost var held, before, more, s := sets, Read(sets), status.Status(), sets[found].disks;
      ghost var watchers, fine := Slices(sets) + w.foreign + w.readers, w.Fine(sets);
      assert s.store in Stores(sets) && forall v <- watchers :: v.Valid();
      if fine { Shielded(sets, found, w); }
      var d := Append(sets[found].disks, status.disks, watchers);
      sets := sets[found := sets[found].(disks := d)];
      if fine {
        forall i | 0 <= i < |held| ensures sets[i].Status() == Added(before, found, more)[i] {
          if i != found {
            assert watchers[i] == held[i].disks && held[i].disks in watchers;
          }
        }
        assert Read(sets) == Added(before, found, more);
        assert forall r <- w.foreign + w.readers :: r in watchers;
        ExtendedFine(held, found, d, w);
      }
    }

    /** The final sort: only the order of the statuses changes. */
    method SortSets(ghost w: World<Disk>)
      requires AllValid(sets)
      modifies this`sets
      ensures AllValid(sets) && multiset(sets) == multiset(old(sets))
      ensures forall h <- sets :: h in old(sets)
      ensures forall i, j :: 0 <= i < j < |sets| ==> !sets[j].key.Before(sets[i].key)
      ensures SameDisks(Read(sets), old(Read(sets))) && (old(w.Fine(sets)) ==> w.Fine(sets))
      ensures Unique(old(Read(sets))) ==> Strict(Read(sets)) && SameViews(Read(sets), old(Read(sets)))
    {
      hide Unique, SameViews, SameDisks, Strict, World.Fine, Read;
      ghost var before := Read(sets);
      var s, read := Sort(sets, before, w);
      sets := s;
      assert forall i :: 0 <= i < |s| ==> Read(sets)[i] == read[i];
      assert Read(sets) == read;
    }
  }

  /** An insertion sort by key; `read` is what the sorted statuses read as. */
  method Sort<Disk>(held: seq<Held<Disk>>, ghost before: seq<SetStatus<Disk>>, ghost w: World<Disk>)
    returns (s: seq<Held<Disk>>, ghost read: seq<SetStatus<Disk>>)
    requires AllValid(held) && before == Read(held)
    ensures AllValid(s) && |s| == |held| && multiset(s) == multiset(held) && forall h <- s :: h in held
    ensures w.Fine(held) ==> w.Fine(s)
    ensures forall i, j :: 0 <= i < j < |s| ==> !s[j].key.Before(s[i].key)
    ensures |read| == |s| && forall i :: 0 <= i < |s| ==> read[i] == s[i].Status()
    ensures SameDisks(read, before) && (Unique(before) ==> Strict(read) && SameViews(read, before))
  {
    hide Unique, SameViews, SameDisks, Strict, World.Fine, Sorting, Rearranged, Slices;
    SortingBegins(held, w);
    s := held;
    var n := 0;
    while n < |s|
      invariant n <= |s| == |held| && Sorting(held, before, s, n, n, w)
    {
      var m := n;
      SortingMore(held, before, s, n, w);
      n := n + 1;
      while m > 0 && s[m].key.Before(s[m - 1].key)
        invariant m < n <= |s| == |held| && Sorting(held, before, s, n, m, w)
      {
        SortingSwaps(held, before, s, n, m, w);
        s := s[m := s[m - 1]][m - 1 := s[m]];
        m := m - 1;
      }
      SortingPlaced(held, before, s, n, m, w);
    }
    SortingEnds(held, before, s, w);
    read := Read(s);
  }

  /** The first n statuses are ordered but for the one at m, and nothing else has changed. */
  ghost predicate Sorting<Disk>(
    held: seq<Held<Disk>>, before: seq<SetStatus<Disk>>, sets: seq<Held<Disk>>, n: nat, m: nat, w: World<Disk>)
    reads Stores(sets)
  {
    && AllValid(sets) && Rearranged(held, sets) && (w.Fine(held) ==> w.Fine(sets))
    && SameRead(Read(sets), before) && n <= |sets| && OrderedBut(Read(sets), n, m)
  }

  lemma {:induction false} SortingBegins<Disk>(held: seq<Held<Disk>>, w: World<Disk>)
    requires AllValid(held)
    ensures Sorting(held, Read(held), held, 0, 0, w)
  {
    hide SameRead, World.Fine, Read;
    SameReadItself(Read(held));
  }

  lemma SortingMore<Disk>(
    held: seq<Held<Disk>>, before: seq<SetStatus<Disk>>, sets: seq<Held<Disk>>, n: nat, w: World<Disk>)
    requires n < |sets| && Sorting(held, before, sets, n, n, w)
    ensures Sorting(held, before, sets, n + 1, n, w)
  {
    hide SameRead, World.Fine, Read;
  }

  lemma SortingSwaps<Disk>(
    held: seq<Held<Disk>>, before: seq<SetStatus<Disk>>, sets: seq<Held<Disk>>, n: nat, m: nat, w: World<Disk>)
    requires 0 < m < n <= |sets| && Sorting(held, before, sets, n, m, w) && sets[m].key.Before(sets[m - 1].key)
    ensures Sorting(held, before, sets[m := sets[m - 1]][m - 1 := sets[m]], n, m - 1, w)
  {
    hide SameRead, World.Fine, Read, OrderedBut, Rearranged;
    SwappedOrdered(Read(sets), n, m);
    SwappedRead(sets, m, before);
    SwappedHeld(held, sets, m);
    if w.Fine(sets) { SwappedFine(sets, m, w); }
  }

  lemma SortingPlaced<Disk>(
    held: seq<Held<Disk>>, before: seq<SetStatus<Disk>>, sets: seq<Held<Disk>>, n: nat, m: nat, w: World<Disk>)
    requires m < n <= |sets| && Sorting(held, before, sets, n, m, w)
    requires m > 0 ==> !sets[m].key.Before(sets[m - 1].key)
    ensures Sorting(held, before, sets, n, n, w)
  {
    hide SameRead, World.Fine, Read, OrderedBut, Rearranged;
    OrderedMore(Read(sets), n, m);
  }

  lemma {:induction false} SortingEnds<Disk>(
    held: seq<Held<Disk>>, before: seq<SetStatus<Disk>>, sets: seq<Held<Disk>>, w: World<Disk>)
    requires Sorting(held, before, sets, |sets|, |sets|, w)
    ensures AllValid(sets) && |sets| == |held| && multiset(sets) == multiset(held) && forall h <- sets :: h in held
    ensures w.Fine(held) ==> w.Fine(sets)
    ensures forall i, j :: 0 <= i < j < |sets| ==> !sets[j].key.Before(sets[i].key)
    ensures SameDisks(Read(sets), before)
    ensures Unique(before) ==> Strict(Read(sets)) && SameViews(Read(sets), before)
  {
    hide SameRead, World.Fine, Read, OrderedBut, Unique, Strict, SameDisks, SameViews;
    AllOrdered(Read(sets));
    SameReadMeans(Read(sets), before);
  }

  /** The same statuses in another order. */
  ghost predicate Rearranged<Disk>(held: seq<Held<Disk>>, sets: seq<Held<Disk>>) {
    && |sets| == |held| && multiset(sets) == multiset(held)
    && forall h <- sets :: h in held
  }

  lemma SwappedHeld<Disk>(held: seq<Held<Disk>>, sets: seq<Held<Disk>>, m: nat)
    requires 0 < m < |sets| && Rearranged(held, sets)
    ensures Rearranged(held, sets[m := sets[m - 1]][m - 1 := sets[m]])
  {
    var now := sets[m := sets[m - 1]][m - 1 := sets[m]];
    assert multiset(now) == multiset(sets);
    assert forall h <- now :: h in sets;
  }

  lemma AllOrdered<Disk>(sets: seq<SetStatus<Disk>>)
    requires OrderedBut(sets, |sets|, |sets|)
    ensures forall i, j :: 0 <= i < j < |sets| ==> !sets[j].key.Before(sets[i].key)
    ensures Unique(sets) ==> Strict(sets)
  {
    if Unique(sets) { SortedStrict(sets); }
  }

  lemma SameReadItself<Disk>(xs: seq<SetStatus<Disk>>)
    ensures SameRead(xs, xs)
  {
  }

  lemma SameReadMeans<Disk>(xs: seq<SetStatus<Disk>>, ys: seq<SetStatus<Disk>>)
    requires SameRead(xs, ys)
    ensures SameDisks(xs, ys) && (Unique(ys) ==> Unique(xs) && SameViews(xs, ys))
  {
    hide SameDisks, Unique;
    if Unique(ys) {
      assert forall s :: s in xs <==> s in ys;
      SameMembersSameViews(xs, ys);
    }
  }

  /** The statuses with the disks of this one added to status i. */
  function Added<Disk>(sets: seq<SetStatus<Disk>>, i: nat, s: SetStatus<Disk>): seq<SetStatus<Disk>>
    requires i < |sets|
  {
    sets[i := sets[i].(disks := sets[i].disks + s.disks)]
  }

  lemma DisksGathered<Disk>(before: seq<SetStatus<Disk>>, s: SetStatus<Disk>, i: nat)
    requires i < |before| && before[i].key == s.key
    ensures Gathers(before, Added(before, i, s), before + [s])
  {
    hide SameDisks, SameViews;
    DisksAddedTo(before, s, i);
    if Unique(before) { DisksAdded(before, s, i, Added(before, i, s)); }
  }

  /** What one status appends to the room of its array shows nowhere else. */
  lemma Shielded<Disk>(sets: seq<Held<Disk>>, i: nat, w: World<Disk>)
    requires w.Fine(sets) && i < |sets|
    ensures var s := sets[i].disks;
            && (forall j :: 0 <= j < |sets| && j != i && sets[j].disks.store == s.store ==> s.Full())
            && (forall r <- w.foreign + w.readers :: r.store == s.store && !s.Full() ==> r.len <= s.len)
  {
    var ws, s := Slices(sets) + w.foreign, sets[i].disks;
    OthersFull(ws, w.readers, i);
    assert ws[i] == s && s in ws;
    forall j | 0 <= j < |sets| && j != i ensures sets[j].disks.store == s.store ==> s.Full() {
      assert ws[j] == sets[j].disks;
    }
    forall r <- w.foreign + w.readers ensures r.store == s.store && !s.Full() ==> r.len <= s.len {
      if r in w.foreign {
        var j :| 0 <= j < |w.foreign| && w.foreign[j] == r;
        assert ws[|sets| + j] == r;
      } else {
        assert Beyond(s, r);
      }
    }
  }

  /** The receiver with a longer slice: in place, where there was room, or in an array that nobody else has. */
  lemma ExtendedFine<Disk>(sets: seq<Held<Disk>>, i: nat, d: Slice<Disk>, w: World<Disk>)
    requires w.Fine(sets) && i < |sets| && sets[i].disks.len <= d.len
    requires var s := sets[i].disks;
             || d == s || (d.store == s.store && !s.Full())
             || ((forall v <- Slices(sets) + w.foreign + w.readers :: v.store != d.store)
                 && forall a <- w.more :: a.disks.store != d.store)
    ensures w.Fine(sets[i := sets[i].(disks := d)])
  {
    var ws, now := Slices(sets) + w.foreign, sets[i := sets[i].(disks := d)];
    assert Slices(now) + w.foreign == ws[i := d] && ws[i] == sets[i].disks;
    assert forall v <- ws :: v in Slices(sets) + w.foreign + w.readers;
    assert forall r <- w.readers :: r in Slices(sets) + w.foreign + w.readers;
    SafeExtended(ws, i, d, w.readers);
    assert sets[i] in sets;
    forall a <- w.more ensures Lent(a, now, w.foreign, w.readers) {
      StillLent(w, sets, now, a);
    }
  }

  lemma OthersFull<Disk>(ws: seq<Slice<Disk>>, readers: seq<Slice<Disk>>, i: nat)
    requires Safe(ws, readers) && i < |ws|
    ensures forall j :: 0 <= j < |ws| && j != i && ws[j].store == ws[i].store ==> ws[i].Full()
  {
    forall j | 0 <= j < |ws| && j != i ensures ws[j].store == ws[i].store ==> ws[i].Full() {
      assert if i < j then Separate(ws[i], ws[j]) else Separate(ws[j], ws[i]);
    }
  }

  lemma AdoptedFine<Disk>(sets: seq<Held<Disk>>, status: Held<Disk>, w: World<Disk>)
    requires AllValid(sets) && w.Valid() && status in w.more && forall h <- sets :: h.key != status.key
    ensures w.Fine(sets) ==> w.Fine(sets + [status])
  {
    if w.Fine(sets) {
      assert Lent(status, sets, w.foreign, w.readers);
      assert forall v <- Slices(sets) :: exists h <- sets :: h.disks == v;
      SafeAdopted(Slices(sets), status.disks, w.foreign, w.readers);
      assert Slices(sets + [status]) == Slices(sets) + [status.disks];
      forall a <- w.more ensures Lent(a, sets + [status], w.foreign, w.readers) {
        StillLent(w, sets, sets + [status], a);
      }
    }
  }

  lemma NewStatus<Disk>(before: seq<SetStatus<Disk>>, s: SetStatus<Disk>)
    requires forall x <- before :: x.key != s.key
    ensures Gathers(before, before + [s], before + [s])
  {
  }

  // ----- The sort

  /** The same statuses read in another order. */
  ghost predicate SameRead<Disk>(xs: seq<SetStatus<Disk>>, ys: seq<SetStatus<Disk>>) {
    SameDisks(xs, ys) && (forall s <- xs :: s in ys) && (forall s <- ys :: s in xs) && (Unique(ys) ==> Unique(xs))
  }

  lemma SwappedRead<Disk>(sets: seq<Held<Disk>>, m: nat, before: seq<SetStatus<Disk>>)
    requires AllValid(sets) && 0 < m < |sets| && SameRead(Read(sets), before)
    ensures var now, r := sets[m := sets[m - 1]][m - 1 := sets[m]], Read(sets);
            AllValid(now) && Read(now) == r[m := r[m - 1]][m - 1 := r[m]] && SameRead(Read(now), before)
  {
    hide SameRead, Read;
    var now, r := sets[m := sets[m - 1]][m - 1 := sets[m]], Read(sets);
    assert AllValid(now) && Read(now) == r[m := r[m - 1]][m - 1 := r[m]];
    SwappedSame(r, m, before);
  }

  lemma SwappedSame<Disk>(r: seq<SetStatus<Disk>>, m: nat, before: seq<SetStatus<Disk>>)
    requires 0 < m < |r| && SameRead(r, before)
    ensures SameRead(r[m := r[m - 1]][m - 1 := r[m]], before)
  {
    hide SameDisks, Unique;
    var swapped := r[m := r[m - 1]][m - 1 := r[m]];
    Swapped(r, m);
    SwappedDisks(r, m);
    SameDisksTrans(swapped, r, before);
  }

  lemma SwappedFine<Disk>(sets: seq<Held<Disk>>, m: nat, w: World<Disk>)
    requires 0 < m < |sets| && w.Fine(sets)
    ensures w.Fine(sets[m := sets[m - 1]][m - 1 := sets[m]])
  {
    var now := sets[m := sets[m - 1]][m - 1 := sets[m]];
    var ws, vs := Slices(sets) + w.foreign, Slices(now) + w.foreign;
    assert vs == ws[m := ws[m - 1]][m - 1 := ws[m]];
    SwappedSafe(ws, m, w.readers);
    assert forall h <- now :: h in sets;
  }

  lemma SwappedSafe<Disk>(ws: seq<Slice<Disk>>, m: nat, readers: seq<Slice<Disk>>)
    requires 0 < m < |ws| && Safe(ws, readers)
    ensures Safe(ws[m := ws[m - 1]][m - 1 := ws[m]], readers)
  {
    var vs := ws[m := ws[m - 1]][m - 1 := ws[m]];
    assert forall v <- vs :: v in ws;
    forall j, k | 0 <= j < k < |vs| ensures Separate(vs[j], vs[k]) {
      var p := if j == m then m - 1 else if j == m - 1 then m else j;
      var q := if k == m then m - 1 else if k == m - 1 then m else k;
      assert if p < q then Separate(ws[p], ws[q]) else Separate(ws[q], ws[p]);
    }
  }

  // ----- The nodes

  lemma {:induction false} HeldOf<Disk>(others: seq<Node<Disk>>, o: Node<Disk>)
    requires o in others
    ensures forall h <- o.sets :: h in AllHeld(others)
  {
    var m := |others| - 1;
    if o != others[m] {
      assert others == others[..m] + [others[m]];
      HeldOf(others[..m], o);
    }
  }

  lemma BeginFields<Disk>(b: State<Disk>, vs: seq<State<Disk>>)
    ensures Begin(b.(sets := []), vs) == Begin(b, vs)
  {
  }

  lemma {:induction false} MergesIs<Disk>(b: State<Disk>, vs: seq<State<Disk>>, r: State<Disk>)
    requires r.(sets := []) == Rest(b, vs) && Strict(r.sets) && SameViews(r.sets, b.sets + AllSets(vs))
    ensures Merges(b, vs, r)
  {
  }

  /** These states have the fields of these nodes. */
  ghost predicate SameFields<Disk>(others: seq<Node<Disk>>, vs: seq<State<Disk>>) {
    |vs| == |others| && forall n :: 0 <= n < |others| ==> vs[n].(sets := []) == others[n].Fields()
  }

  lemma StepFields<Disk>(r: State<Disk>, other: Node<Disk>, v: State<Disk>)
    requires v.(sets := []) == other.Fields()
    ensures Step(r, v) == Step(r, other.Fields())
  {
  }

  lemma {:induction false} NoSteps<Disk>(r: State<Disk>)
    ensures Steps(r, []) == r
  {
  }

  lemma ReadersOf<Disk>(sets: seq<Held<Disk>>, more: seq<Held<Disk>>, w: World<Disk>)
    requires w.Fine(sets) && forall h <- more :: h in w.more
    ensures forall i :: 0 <= i < |more| ==> more[i].disks in w.readers
  {
    forall i | 0 <= i < |more| ensures more[i].disks in w.readers {
      LentIsRead(sets, more[i], w);
    }
  }

  lemma LentIsRead<Disk>(sets: seq<Held<Disk>>, a: Held<Disk>, w: World<Disk>)
    requires w.Fine(sets) && a in w.more
    ensures a.disks in w.readers
  {
    assert Lent(a, sets, w.foreign, w.readers);
  }

  lemma {:induction false} AllSetsBehind<Disk>(sets: seq<SetStatus<Disk>>, others: seq<State<Disk>>, o: State<Disk>)
    ensures sets + AllSets(others) + o.sets == sets + AllSets(others + [o])
  {
    AllSetsMore(others, o);
    hide AllSets;
    Assoc(sets, AllSets(others), o.sets);
  }

  lemma Finished<Disk>(
    b: seq<SetStatus<Disk>>, before: seq<SetStatus<Disk>>, now: seq<SetStatus<Disk>>, all: seq<SetStatus<Disk>>)
    requires Gathers(b, before, all) && SameDisks(now, before)
    requires Unique(before) ==> SameViews(now, before)
    ensures SameDisks(now, all) && (Unique(b) ==> Unique(before) && SameViews(now, all))
  {
    hide SameDisks, SameViews, Unique;
    SameDisksTrans(now, before, all);
    if Unique(b) { SameViewsTrans(now, before, all); }
  }

  /** `for k, v := range from { into[k] = v }`, in any order. */
  method CopyInto<V>(into: map<string, V>, from: map<string, V>) returns (r: map<string, V>)
    ensures r == into + from
  {
    r := into;
    var todo := from.Keys;
    while todo != {}
      invariant todo <= from.Keys && r.Keys == into.Keys + (from.Keys - todo)
      invariant forall k :: k in r ==> r[k] == if k in from && k !in todo then from[k] else into[k]
    {
      var k :| k in todo;
      r := r[k := from[k]];
      todo := todo - {k};
    }
  }
}
