/** Many receivers that merge the same nodes: when no disk is lost anywhere, although slices share arrays. */
module HealRuns {
  import opened Basics
  import opened HealStates
  import opened HealSlices
  import opened HealMerge

  /** All slices these receivers hold. */
  function AllSlices<Disk(0)>(rs: seq<BgHealState<Disk>>): seq<Slice<Disk>>
    reads rs
  {
    if rs == [] then [] else AllSlices(rs[..|rs| - 1]) + Slices(rs[|rs| - 1].sets)
  }

  lemma {:induction false} AllSlicesAppend<Disk(0)>(xs: seq<BgHealState<Disk>>, ys: seq<BgHealState<Disk>>)
    ensures AllSlices(xs + ys) == AllSlices(xs) + AllSlices(ys)
  {
    if ys == [] {
      assert xs + ys == xs;
    } else {
      var n := |ys| - 1;
      assert (xs + ys)[..|xs| + n] == xs + ys[..n];
      AllSlicesAppend(xs, ys[..n]);
      Assoc(AllSlices(xs), AllSlices(ys[..n]), Slices(ys[n].sets));
    }
  }

  /** The slices of all receivers but one. */
  function Others<Disk(0)>(rs: seq<BgHealState<Disk>>, k: nat): seq<Slice<Disk>>
    requires k < |rs|
    reads rs
  {
    AllSlices(rs[..k]) + AllSlices(rs[k + 1..])
  }

  lemma SlicesOfOne<Disk(0)>(r: BgHealState<Disk>)
    ensures AllSlices([r]) == Slices(r.sets)
  {
    assert [r][..0] == [];
  }

  lemma {:induction false} SlicesOfThree<Disk(0)>(
    front: seq<BgHealState<Disk>>, r: BgHealState<Disk>, back: seq<BgHealState<Disk>>)
    ensures AllSlices(front + [r] + back) == AllSlices(front) + Slices(r.sets) + AllSlices(back)
  {
    hide AllSlices, Slices;
    AllSlicesAppend(front + [r], back);
    AllSlicesAppend(front, [r]);
    SlicesOfOne(r);
  }

  lemma {:induction false} InThree<Disk(0)>(rs: seq<BgHealState<Disk>>, k: nat)
    requires k < |rs|
    ensures AllSlices(rs) == AllSlices(rs[..k]) + Slices(rs[k].sets) + AllSlices(rs[k + 1..])
  {
    hide *;
    SlicesOfThree(rs[..k], rs[k], rs[k + 1..]);
    assert rs == rs[..k] + [rs[k]] + rs[k + 1..];
  }

  lemma {:induction false} AllSlicesValid<Disk(0)>(rs: seq<BgHealState<Disk>>)
    requires forall k :: 0 <= k < |rs| ==> AllValid(rs[k].sets)
    ensures forall v <- AllSlices(rs) :: v.Valid()
  {
    if rs != [] {
      AllSlicesValid(rs[..|rs| - 1]);
    }
  }

  lemma {:induction false} Holds<Disk(0)>(rs: seq<BgHealState<Disk>>, k: nat, i: nat)
    requires k < |rs| && i < |rs[k].sets|
    ensures rs[k].sets[i].disks in AllSlices(rs)
  {
    InThree(rs, k);
    assert Slices(rs[k].sets)[i] in Slices(rs[k].sets);
  }

  /** The order in which writers are listed does not matter. */
  lemma SafeRotated<Disk>(
    x: seq<Slice<Disk>>, own: seq<Slice<Disk>>, y: seq<Slice<Disk>>, readers: seq<Slice<Disk>>)
    ensures Safe(x + own + y, readers) <==> Safe(own + (x + y), readers)
  {
    var ws, vs := x + own + y, own + (x + y);
    if Safe(ws, readers) {
      forall i, j | 0 <= i < j < |vs| ensures Separate(vs[i], vs[j]) {
        var p := if i < |own| then |x| + i else if i < |own| + |x| then i - |own| else i;
        var q := if j < |own| then |x| + j else if j < |own| + |x| then j - |own| else j;
        assert vs[i] == ws[p] && vs[j] == ws[q];
        assert if p < q then Separate(ws[p], ws[q]) else Separate(ws[q], ws[p]);
      }
      assert forall v <- vs :: v in ws;
    }
    if Safe(vs, readers) {
      forall i, j | 0 <= i < j < |ws| ensures Separate(ws[i], ws[j]) {
        var p := if i < |x| then |own| + i else if i < |own| + |x| then i - |x| else i;
        var q := if j < |x| then |own| + j else if j < |own| + |x| then j - |x| else j;
        assert ws[i] == vs[p] && ws[j] == vs[q];
        assert if p < q then Separate(vs[p], vs[q]) else Separate(vs[q], vs[p]);
      }
      assert forall w <- ws :: w in vs;
    }
  }

  /** A node that receiver `to` merges. */
  datatype Delivery<!Disk> = Delivery(to: nat, node: Node<Disk>)

  /** What receiver k is brought, in order, if delivery i brings these statuses. */
  function Brought<Disk>(run: seq<Delivery<Disk>>, statuses: seq<seq<SetStatus<Disk>>>, k: nat): seq<SetStatus<Disk>>
    requires |run| == |statuses|
  {
    if run == [] then []
    else
      var n := |run| - 1;
      Brought(run[..n], statuses[..n], k) + (if run[n].to == k then statuses[n] else [])
  }

  lemma {:induction false} BroughtMore<Disk>(
    b: seq<SetStatus<Disk>>, run: seq<Delivery<Disk>>, statuses: seq<seq<SetStatus<Disk>>>, n: nat, k: nat)
    requires n < |run| == |statuses|
    ensures b + Brought(run[..n + 1], statuses[..n + 1], k)
         == b + Brought(run[..n], statuses[..n], k) + if run[n].to == k then statuses[n] else []
  {
    assert run[..n + 1][..n] == run[..n] && statuses[..n + 1][..n] == statuses[..n];
    Assoc(b, Brought(run[..n], statuses[..n], k), if run[n].to == k then statuses[n] else []);
  }

  /** Different receivers, with valid slices. */
  ghost predicate Proper<Disk(0)>(rs: seq<BgHealState<Disk>>)
    reads rs
  {
    && (forall j, k :: 0 <= j < k < |rs| ==> rs[j] != rs[k])
    && (forall k :: 0 <= k < |rs| ==> AllValid(rs[k].sets))
  }

  /** All slices of this node are full, and are among the readers. */
  ghost predicate Offered<Disk>(node: Node<Disk>, readers: seq<Slice<Disk>>) {
    forall h <- node.sets :: h.disks.Full() && h.disks in readers
  }

  /** All arrays the receivers have are in this room. */
  ghost predicate Housed<Disk(0)>(rs: seq<BgHealState<Disk>>, room: set<array<Disk>>)
    reads rs
  {
    forall k, i :: 0 <= k < |rs| && 0 <= i < |rs[k].sets| ==> rs[k].sets[i].disks.store in room
  }

  lemma {:induction false} FineHere<Disk(0)>(
    rs: seq<BgHealState<Disk>>, k: nat, node: Node<Disk>, readers: seq<Slice<Disk>>)
    requires k < |rs| && Proper(rs) && Safe(AllSlices(rs), readers) && Offered(node, readers)
    ensures World(node.sets, Others(rs, k), readers).Fine(rs[k].sets)
  {
    InThree(rs, k);
    SafeRotated(AllSlices(rs[..k]), Slices(rs[k].sets), AllSlices(rs[k + 1..]), readers);
  }

  lemma {:induction false} SafeHere<Disk(0)>(
      rs: seq<BgHealState<Disk>>, k: nat, more: seq<Held<Disk>>, readers: seq<Slice<Disk>>)
    requires k < |rs| && World(more, Others(rs, k), readers).Fine(rs[k].sets)
    ensures Safe(AllSlices(rs), readers)
  {
    InThree(rs, k);
    SafeRotated(AllSlices(rs[..k]), Slices(rs[k].sets), AllSlices(rs[k + 1..]), readers);
  }

  lemma HeldIn<Disk(0)>(rs: seq<BgHealState<Disk>>, k: nat, j: nat)
    requires k < |rs| && j < |rs| && j != k
    ensures forall i :: 0 <= i < |rs[j].sets| ==> rs[j].sets[i].disks in Others(rs, k)
  {
    forall i | 0 <= i < |rs[j].sets| ensures rs[j].sets[i].disks in Others(rs, k) {
      if j < k {
        assert rs[..k][j] == rs[j];
        Holds(rs[..k], j, i);
      } else {
        assert rs[k + 1..][j - k - 1] == rs[j];
        Holds(rs[k + 1..], j - k - 1, i);
      }
    }
  }

  lemma HeldOfOne<Disk>(node: Node<Disk>)
    ensures AllHeld([node]) == node.sets
  {
    assert [node][..0] == [];
  }

  /** Merging one node, where nothing is in the way. */
  method MergeNode<Disk(0)>(r: BgHealState<Disk>, node: Node<Disk>, ghost w: World<Disk>, ghost room: set<array<Disk>>)
    requires AllValid(r.sets) && w.Valid() && w.more == node.sets && w.Fine(r.sets)
    requires forall h <- r.sets + node.sets :: h.disks.store in room
    modifies r, room
    ensures AllValid(r.sets) && AllValid(node.sets) && w.Fine(r.sets)
    ensures forall h <- r.sets :: h.disks.store in room || fresh(h.disks.store)
    ensures SameDisks(Read(r.sets), old(Read(r.sets)) + old(Read(node.sets)))
    ensures forall v <- w.foreign + w.readers :: v.Disks() == old(v.Disks())
  {
    hide World.Fine, Read, SameDisks;
    ghost var value, b := node.Value(), r.Contents();
    HeldOfOne(node);
    AllSetsOne(value);
    r.Merge([node], b, [value], w);
  }

  /** One delivery. */
  method Deliver<Disk(0)>(
    rs: seq<BgHealState<Disk>>, k: nat, node: Node<Disk>, ghost readers: seq<Slice<Disk>>,
    ghost room: set<array<Disk>>)
    requires k < |rs| && Proper(rs) && Housed(rs, room) && Safe(AllSlices(rs), readers)
    requires Offered(node, readers) && forall r <- readers :: r.Valid() && r.store in room
    modifies rs[k], room
    ensures Proper(rs) && AllValid(node.sets) && Safe(AllSlices(rs), readers)
    ensures forall h <- rs[k].sets :: h.disks.store in room || fresh(h.disks.store)
    ensures forall r <- readers :: r.Disks() == old(r.Disks())
    ensures SameDisks(Read(rs[k].sets), old(Read(rs[k].sets)) + old(Read(node.sets)))
    ensures forall j :: 0 <= j < |rs| && j != k ==>
      rs[j].sets == old(rs[j].sets) && Read(rs[j].sets) == old(Read(rs[j].sets))
  {
    hide World.Fine, Read, SameDisks, Offered, Safe;
    ghost var w := World(node.sets, Others(rs, k), readers);
    ghost var front, back := rs[..k], rs[k + 1..];
    ghost var mine, theirs := AllSlices(front), AllSlices(back);
    WorldValid(rs, k, node, readers);
    FineHere(rs, k, node, readers);
    NodeHoused(node, readers, room);
    forall j | 0 <= j < |rs| && j != k ensures forall i :: 0 <= i < |rs[j].sets| ==> rs[j].sets[i].disks in w.foreign {
      HeldIn(rs, k, j);
    }
    assert rs[k] !in front && rs[k] !in back;
    MergeNode(rs[k], node, w, room);
    assert AllSlices(front) == mine && AllSlices(back) == theirs;
    SafeHere(rs, k, node.sets, readers);
  }

  lemma OfferedRead<Disk>(node: Node<Disk>, readers: seq<Slice<Disk>>)
    requires Offered(node, readers)
    ensures forall i :: 0 <= i < |node.sets| ==> node.sets[i].disks in readers
  {
  }

  lemma NodeHoused<Disk>(node: Node<Disk>, readers: seq<Slice<Disk>>, room: set<array<Disk>>)
    requires Offered(node, readers) && forall r <- readers :: r.store in room
    ensures forall h <- node.sets :: h.disks.store in room
  {
  }

  lemma WorldValid<Disk(0)>(rs: seq<BgHealState<Disk>>, k: nat, node: Node<Disk>, readers: seq<Slice<Disk>>)
    requires k < |rs| && Proper(rs) && Offered(node, readers) && forall r <- readers :: r.Valid()
    ensures World(node.sets, Others(rs, k), readers).Valid()
  {
    AllSlicesValid(rs[..k]);
    AllSlicesValid(rs[k + 1..]);
  }

  lemma AllSetsOne<Disk>(v: State<Disk>)
    ensures AllSets([v]) == v.sets
  {
    assert [v][..0] == [];
  }

  /** What each receiver holds. */
  ghost function Reads<Disk(0)>(rs: seq<BgHealState<Disk>>): (r: seq<seq<SetStatus<Disk>>>)
    requires forall k :: 0 <= k < |rs| ==> AllValid(rs[k].sets)
    reads rs, set r <- rs, h <- r.sets :: h.disks.store
    ensures |r| == |rs| && forall k :: 0 <= k < |rs| ==> r[k] == Read(rs[k].sets)
  {
    if rs == [] then [] else Reads(rs[..|rs| - 1]) + [Read(rs[|rs| - 1].sets)]
  }

  /** Each receiver has the disks it had and those it was brought. */
  ghost predicate Kept<Disk>(
    now: seq<seq<SetStatus<Disk>>>, before: seq<seq<SetStatus<Disk>>>,
    run: seq<Delivery<Disk>>, statuses: seq<seq<SetStatus<Disk>>>)
    requires |run| == |statuses|
  {
    |now| == |before| && forall k :: 0 <= k < |now| ==> SameDisks(now[k], before[k] + Brought(run, statuses, k))
  }

  lemma KeptMore<Disk>(
    now: seq<seq<SetStatus<Disk>>>, next: seq<seq<SetStatus<Disk>>>, before: seq<seq<SetStatus<Disk>>>,
    run: seq<Delivery<Disk>>, statuses: seq<seq<SetStatus<Disk>>>, n: nat)
    requires n < |run| == |statuses| && Kept(now, before, run[..n], statuses[..n]) && |next| == |now|
    requires run[n].to < |now| && SameDisks(next[run[n].to], now[run[n].to] + statuses[n])
    requires forall k :: 0 <= k < |now| && k != run[n].to ==> next[k] == now[k]
    ensures Kept(next, before, run[..n + 1], statuses[..n + 1])
  {
    hide SameDisks, Brought;
    forall k | 0 <= k < |next| ensures SameDisks(next[k], before[k] + Brought(run[..n + 1], statuses[..n + 1], k)) {
      BroughtMore(before[k], run, statuses, n, k);
      if k == run[n].to {
        var had := before[k] + Brought(run[..n], statuses[..n], k);
        SameDisksMore(now[k], had, statuses[n]);
        SameDisksTrans(next[k], now[k] + statuses[n], had + statuses[n]);
      } else {
        assert before[k] + Brought(run[..n], statuses[..n], k) + [] == before[k] + Brought(run[..n], statuses[..n], k);
      }
    }
  }

  lemma KeptNone<Disk>(before: seq<seq<SetStatus<Disk>>>)
    ensures Kept(before, before, [], [])
  {
    forall k | 0 <= k < |before| ensures SameDisks(before[k], before[k] + Brought<Disk>([], [], k)) {
      assert before[k] + Brought<Disk>([], [], k) == before[k];
      SameReadItself(before[k]);
    }
  }

  /** One delivery, with what all receivers hold before and after it. */
  method DeliverTo<Disk(0)>(
    rs: seq<BgHealState<Disk>>, k: nat, node: Node<Disk>, ghost readers: seq<Slice<Disk>>,
    ghost status: seq<SetStatus<Disk>>, ghost room: set<array<Disk>>)
    requires k < |rs| && Proper(rs) && Housed(rs, room) && Safe(AllSlices(rs), readers)
    requires Offered(node, readers) && forall r <- readers :: r.Valid() && r.store in room
    requires AllValid(node.sets) && status == Read(node.sets)
    modifies rs[k], room
    ensures Proper(rs) && Safe(AllSlices(rs), readers)
    ensures forall h <- rs[k].sets :: h.disks.store in room || fresh(h.disks.store)
    ensures forall j :: 0 <= j < |rs| && j != k ==> rs[j].sets == old(rs[j].sets)
    ensures forall r <- readers :: r.Disks() == old(r.Disks())
    ensures SameDisks(Reads(rs)[k], old(Reads(rs))[k] + status)
    ensures forall j :: 0 <= j < |rs| && j != k ==> Reads(rs)[j] == old(Reads(rs))[j]
  {
    hide SameDisks, Safe, Offered, Read, AllSlices, Reads;
    Deliver(rs, k, node, readers, room);
  }

  /**
   Any run of merges of nodes into any receivers, the same node into several of them included.  If every
   slice that is merged is full, and the receivers do not share room to write to begin with, then in the
   end every receiver has exactly its own disks and all it was brought, and every node is as it was.
   */
  method MergeRun<Disk(0)>(
    rs: seq<BgHealState<Disk>>, run: seq<Delivery<Disk>>, ghost readers: seq<Slice<Disk>>,
    ghost statuses: seq<seq<SetStatus<Disk>>>, ghost room: set<array<Disk>>)
    requires Proper(rs) && Housed(rs, room) && Safe(AllSlices(rs), readers)
    requires forall r <- readers :: r.Valid() && r.store in room
    requires |statuses| == |run| && forall n :: 0 <= n < |run| ==>
      && run[n].to < |rs| && Offered(run[n].node, readers)
      && AllValid(run[n].node.sets) && statuses[n] == Read(run[n].node.sets)
    modifies rs, room
    ensures Proper(rs) && Safe(AllSlices(rs), readers)
    ensures Kept(Reads(rs), old(Reads(rs)), run, statuses)
    ensures forall r <- readers :: r.Disks() == old(r.Disks())
  {
    hide SameDisks, Kept, Safe, Offered, Read, AllSlices, Reads;
    ghost var before := Reads(rs);
    KeptNone(before);
    ghost var here, now := room, before;
    for n := 0 to |run|
      invariant Proper(rs) && Housed(rs, here) && Safe(AllSlices(rs), readers)
      invariant room <= here && forall a <- here :: a in room || fresh(a)
      invariant now == Reads(rs) && Kept(now, before, run[..n], statuses[..n])
      invariant forall r <- readers :: r.Disks() == old(r.Disks())
    {
      OfferedRead(run[n].node, readers);
      assert forall i :: 0 <= i < |statuses[n]| ==> Read(run[n].node.sets)[i] == statuses[n][i];
      assert Read(run[n].node.sets) == statuses[n];
      DeliverTo(rs, run[n].to, run[n].node, readers, statuses[n], here);
      KeptMore(now, Reads(rs), before, run, statuses, n);
      here, now := here + Stores(rs[run[n].to].sets), Reads(rs);
    }
    assert run[..|run|] == run && statuses[..|run|] == statuses;
  }
}
