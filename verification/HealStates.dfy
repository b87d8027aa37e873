/** heal-commands.go: the erasure set states that `BgHealState.Merge` merges, and what is known about one set. */
module HealStates {
  import opened Basics

  datatype MRFStatus = MRFStatus(bytesHealed: int, itemsHealed: int)

  datatype Key = Key(pool: int, index: int) {
    predicate Before(o: Key) { if pool != o.pool then pool < o.pool else index < o.index }
  }

  datatype Label = Label(id: string, healStatus: string, healPriority: string, totalObjects: int)

  datatype SetStatus<Disk> = SetStatus(key: Key, head: Label, disks: seq<Disk>)

  /** The contents of a BgHealState; the two maps can be nil. */
  datatype State<Disk> = State(
    offlineEndpoints: seq<string>, scannedItemsCount: int, healDisks: seq<string>, sets: seq<SetStatus<Disk>>,
    mrf: Option<map<string, MRFStatus>>, scParity: Option<map<string, int>>)

  // ----- What is known about one set

  /** Nothing, or the label it came with first and all its disks in the order they came. */
  datatype View<Disk> = Absent | Present(head: Label, disks: seq<Disk>)

  /** What is known about set k after also reading these statuses. */
  function Extend<Disk>(v: View<Disk>, sets: seq<SetStatus<Disk>>, k: Key): View<Disk> {
    if sets == [] then v
    else
      var (before, s) := (Extend(v, sets[..|sets| - 1], k), sets[|sets| - 1]);
      if s.key != k then before
      else if before.Absent? then Present(s.head, s.disks)
      else Present(before.head, before.disks + s.disks)
  }

  ghost predicate Unique<Disk>(sets: seq<SetStatus<Disk>>) {
    forall i, j :: 0 <= i < j < |sets| ==> sets[i].key != sets[j].key
  }

  /** Ordered by key, each key once. */
  ghost predicate Strict<Disk>(sets: seq<SetStatus<Disk>>) {
    forall i, j :: 0 <= i < j < |sets| ==> sets[i].key.Before(sets[j].key)
  }

  ghost predicate SameViews<Disk>(xs: seq<SetStatus<Disk>>, ys: seq<SetStatus<Disk>>) {
    forall k: Key :: Extend(Absent, xs, k) == Extend(Absent, ys, k)
  }

  lemma {:induction false} ExtendAppend<Disk>(v: View<Disk>, xs: seq<SetStatus<Disk>>, ys: seq<SetStatus<Disk>>, k: Key)
    ensures Extend(v, xs + ys, k) == Extend(Extend(v, xs, k), ys, k)
  {
    if ys == [] {
      assert xs + ys == xs;
    } else {
      var n := |ys| - 1;
      assert (xs + ys)[..|xs + ys| - 1] == xs + ys[..n];
      ExtendAppend(v, xs, ys[..n], k);
    }
  }

  /** With unique keys, a key's view is the one status that has it. */
  lemma {:induction false} ViewAt<Disk>(sets: seq<SetStatus<Disk>>, i: nat)
    requires i < |sets| && Unique(sets)
    ensures Extend(Absent, sets, sets[i].key) == Present(sets[i].head, sets[i].disks)
  {
    var n := |sets| - 1;
    if i == n {
      ViewAbsent(sets[..n], sets[n].key);
    } else {
      ViewAt(sets[..n], i);
    }
  }

  lemma {:induction false} ViewAbsent<Disk>(sets: seq<SetStatus<Disk>>, k: Key)
    ensures Extend(Absent, sets, k).Absent? <==> forall s <- sets :: s.key != k
  {
    if sets != [] {
      var n := |sets| - 1;
      assert sets == sets[..n] + [sets[n]];
      ViewAbsent(sets[..n], k);
    }
  }

  lemma SameMembersSameViews<Disk>(xs: seq<SetStatus<Disk>>, ys: seq<SetStatus<Disk>>)
    requires Unique(xs) && Unique(ys) && forall s :: s in xs <==> s in ys
    ensures SameViews(xs, ys)
  {
    forall k: Key ensures Extend(Absent, xs, k) == Extend(Absent, ys, k) {
      ViewAbsent(xs, k);
      ViewAbsent(ys, k);
      if s :| s in xs && s.key == k {
        var i :| 0 <= i < |xs| && xs[i] == s;
        var j :| 0 <= j < |ys| && ys[j] == s;
        ViewAt(xs, i);
        ViewAt(ys, j);
      }
    }
  }

  /** Views determine a strictly ordered list: there is only one way to sort it. */
  lemma {:induction false} StrictDetermined<Disk>(xs: seq<SetStatus<Disk>>, ys: seq<SetStatus<Disk>>)
    requires Strict(xs) && Strict(ys) && SameViews(xs, ys)
    ensures xs == ys
  {
    if xs == [] || ys == [] {
      if xs != [] { ViewAt(xs, 0); }
      if ys != [] { ViewAt(ys, 0); }
    } else {
      var m, n := |xs| - 1, |ys| - 1;
      LastsAgree(xs, ys);
      forall k: Key ensures Extend(Absent, xs[..m], k) == Extend(Absent, ys[..n], k) {
        ViewAbsent(xs[..m], k);
        ViewAbsent(ys[..n], k);
        assert Extend(Absent, xs, k) == Extend(Absent, ys, k);
      }
      StrictDetermined(xs[..m], ys[..n]);
      assert xs == xs[..m] + [xs[m]] && ys == ys[..n] + [ys[n]];
    }
  }

  lemma LastsAgree<Disk>(xs: seq<SetStatus<Disk>>, ys: seq<SetStatus<Disk>>)
    requires xs != [] && ys != [] && Strict(xs) && Strict(ys) && SameViews(xs, ys)
    ensures xs[|xs| - 1] == ys[|ys| - 1]
  {
    var m, n := |xs| - 1, |ys| - 1;
    ViewAt(xs, m);
    ViewAt(ys, n);
    ViewAbsent(xs, ys[n].key);
    ViewAbsent(ys, xs[m].key);
    var i :| 0 <= i < |xs| && xs[i].key == ys[n].key;
    var j :| 0 <= j < |ys| && ys[j].key == xs[m].key;
    assert !xs[m].key.Before(xs[i].key);
    assert !ys[n].key.Before(ys[j].key);
  }

  lemma SameViewsTrans<Disk>(xs: seq<SetStatus<Disk>>, ys: seq<SetStatus<Disk>>, zs: seq<SetStatus<Disk>>)
    requires SameViews(xs, ys) && SameViews(ys, zs)
    ensures SameViews(xs, zs)
  {
  }

  lemma SameViewsMore<Disk>(xs: seq<SetStatus<Disk>>, ys: seq<SetStatus<Disk>>, more: seq<SetStatus<Disk>>)
    requires SameViews(xs, ys)
    ensures SameViews(xs + more, ys + more)
  {
    forall k: Key ensures Extend(Absent, xs + more, k) == Extend(Absent, ys + more, k) {
      ExtendAppend(Absent, xs, more, k);
      ExtendAppend(Absent, ys, more, k);
    }
  }

  lemma SortedStrict<Disk>(sets: seq<SetStatus<Disk>>)
    requires Unique(sets) && forall i, j :: 0 <= i < j < |sets| ==> !sets[j].key.Before(sets[i].key)
    ensures Strict(sets)
  {
  }

  lemma Swapped<Disk>(xs: seq<SetStatus<Disk>>, m: nat)
    requires 0 < m < |xs|
    ensures var ys := xs[m := xs[m - 1]][m - 1 := xs[m]];
            && multiset(ys) == multiset(xs) && (forall s :: s in ys <==> s in xs) && (Unique(xs) ==> Unique(ys))
  {
    var ys := xs[m := xs[m - 1]][m - 1 := xs[m]];
    assert multiset(ys) == multiset(xs);
    forall s ensures s in ys <==> s in xs {
      assert s in multiset(ys) <==> s in multiset(xs);
    }
  }

  /** The first n statuses are ordered, but for the one at m. */
  ghost predicate OrderedBut<Disk>(sets: seq<SetStatus<Disk>>, n: nat, m: nat)
    requires n <= |sets|
  {
    forall i, j :: 0 <= i < j < n && j != m ==> !sets[j].key.Before(sets[i].key)
  }

  lemma OrderedMore<Disk>(sets: seq<SetStatus<Disk>>, n: nat, m: nat)
    requires m < n <= |sets| && OrderedBut(sets, n, m) && (m > 0 ==> !sets[m].key.Before(sets[m - 1].key))
    ensures OrderedBut(sets, n, n)
  {
    forall i | 0 <= i < m ensures !sets[m].key.Before(sets[i].key) {
      assert i < m - 1 ==> !sets[m - 1].key.Before(sets[i].key);
    }
  }

  lemma SwappedOrdered<Disk>(sets: seq<SetStatus<Disk>>, n: nat, m: nat)
    requires 0 < m < n <= |sets| && OrderedBut(sets, n, m) && sets[m].key.Before(sets[m - 1].key)
    ensures OrderedBut(sets[m := sets[m - 1]][m - 1 := sets[m]], n, m - 1)
  {
    var ys := sets[m := sets[m - 1]][m - 1 := sets[m]];
    forall i, j | 0 <= i < j < n && j != m - 1 ensures !ys[j].key.Before(ys[i].key) {
      assert i < m - 1 ==> !sets[m - 1].key.Before(sets[i].key);
    }
  }

  lemma DisksAdded<Disk>(before: seq<SetStatus<Disk>>, s: SetStatus<Disk>, i: nat, sets: seq<SetStatus<Disk>>)
    requires Unique(before) && i < |before| && before[i].key == s.key
    requires sets == before[i := before[i].(disks := before[i].disks + s.disks)]
    ensures Unique(sets) && SameViews(sets, before + [s])
  {
    forall k: Key ensures Extend(Absent, sets, k) == Extend(Absent, before + [s], k) {
      assert (before + [s])[..|before|] == before;
      ViewAbsent(sets, k);
      ViewAbsent(before, k);
      if j :| 0 <= j < |sets| && sets[j].key == k {
        ViewAt(sets, j);
        ViewAt(before, j);
      } else {
        forall j | 0 <= j < |before| ensures before[j].key != k {
          assert sets[j].key == before[j].key;
        }
      }
    }
  }

  // ----- All disks, whatever the keys

  /** All disks of set k among these statuses, in order. */
  function DisksOf<Disk>(sets: seq<SetStatus<Disk>>, k: Key): seq<Disk> {
    if sets == [] then []
    else DisksOf(sets[..|sets| - 1], k) + (if sets[|sets| - 1].key == k then sets[|sets| - 1].disks else [])
  }

  lemma {:induction false} DisksAppend<Disk>(xs: seq<SetStatus<Disk>>, ys: seq<SetStatus<Disk>>, k: Key)
    ensures DisksOf(xs + ys, k) == DisksOf(xs, k) + DisksOf(ys, k)
  {
    if ys == [] {
      assert xs + ys == xs;
    } else {
      assert (xs + ys)[..|xs + ys| - 1] == xs + ys[..|ys| - 1];
      DisksAppend(xs, ys[..|ys| - 1], k);
    }
  }

  ghost predicate HasKey<Disk>(sets: seq<SetStatus<Disk>>, k: Key) { exists s <- sets :: s.key == k }

  lemma HasAppend<Disk>(xs: seq<SetStatus<Disk>>, ys: seq<SetStatus<Disk>>, k: Key)
    ensures HasKey(xs + ys, k) <==> HasKey(xs, k) || HasKey(ys, k)
  {
    if s :| s in xs && s.key == k { assert s in xs + ys; }
    if s :| s in ys && s.key == k { assert s in xs + ys; }
  }

  /** The same keys, and for each key the same disks in some order. */
  ghost predicate SameDisks<Disk>(xs: seq<SetStatus<Disk>>, ys: seq<SetStatus<Disk>>) {
    forall k: Key :: (HasKey(xs, k) <==> HasKey(ys, k)) && multiset(DisksOf(xs, k)) == multiset(DisksOf(ys, k))
  }

  lemma SameDisksMore<Disk>(xs: seq<SetStatus<Disk>>, ys: seq<SetStatus<Disk>>, more: seq<SetStatus<Disk>>)
    requires SameDisks(xs, ys)
    ensures SameDisks(xs + more, ys + more)
  {
    forall k: Key
      ensures HasKey(xs + more, k) <==> HasKey(ys + more, k)
      ensures multiset(DisksOf(xs + more, k)) == multiset(DisksOf(ys + more, k))
    {
      hide DisksOf, HasKey;
      DisksAppend(xs, more, k);
      DisksAppend(ys, more, k);
      HasAppend(xs, more, k);
      HasAppend(ys, more, k);
    }
  }

  lemma {:induction false} OneStatus<Disk>(s: SetStatus<Disk>, k: Key)
    ensures DisksOf([s], k) == if s.key == k then s.disks else []
    ensures HasKey([s], k) <==> s.key == k
  {
    assert [s][..0] == [] && s in [s];
  }

  lemma BagOfMiddle<Disk>(f: seq<Disk>, m: seq<Disk>, s: seq<Disk>, b: seq<Disk>)
    ensures multiset(f + (m + s) + b) == multiset(f + m + b + s)
    ensures multiset(f + m + (s + b)) == multiset(f + s + (m + b))
  {
  }

  /** Adding disks to one of the statuses with their key. */
  lemma DisksAddedTo<Disk>(before: seq<SetStatus<Disk>>, s: SetStatus<Disk>, i: nat)
    requires i < |before| && before[i].key == s.key
    ensures SameDisks(before[i := before[i].(disks := before[i].disks + s.disks)], before + [s])
  {
    var mine, both := before[i], before[i].(disks := before[i].disks + s.disks);
    var front, back := before[..i], before[i + 1..];
    assert before == front + ([mine] + back) && before[i := both] == front + ([both] + back);
    forall k: Key
      ensures HasKey(before[i := both], k) <==> HasKey(before + [s], k)
      ensures multiset(DisksOf(before[i := both], k)) == multiset(DisksOf(before + [s], k))
    {
      AddedAt(front, mine, s, back, k);
    }
  }

  lemma AddedAt<Disk>(
    front: seq<SetStatus<Disk>>, mine: SetStatus<Disk>, s: SetStatus<Disk>, back: seq<SetStatus<Disk>>, k: Key)
    requires mine.key == s.key
    ensures var both := mine.(disks := mine.disks + s.disks);
            var (xs, ys) := (front + ([both] + back), front + ([mine] + back) + [s]);
            (HasKey(xs, k) <==> HasKey(ys, k)) && multiset(DisksOf(xs, k)) == multiset(DisksOf(ys, k))
  {
    hide DisksOf, HasKey;
    DisksAppend(front + ([mine] + back), [s], k);
    HasAppend(front + ([mine] + back), [s], k);
    InMiddle(front, mine, back, k);
    InMiddle(front, mine.(disks := mine.disks + s.disks), back, k);
    OneStatus(s, k);
    BagOfMiddle(DisksOf(front, k), mine.disks, s.disks, DisksOf(back, k));
  }

  lemma {:induction false} InMiddle<Disk>(
      front: seq<SetStatus<Disk>>, s: SetStatus<Disk>, back: seq<SetStatus<Disk>>, k: Key)
    ensures DisksOf(front + ([s] + back), k)
         == DisksOf(front, k) + (if s.key == k then s.disks else []) + DisksOf(back, k)
    ensures HasKey(front + ([s] + back), k) <==> HasKey(front, k) || s.key == k || HasKey(back, k)
  {
    hide DisksOf, HasKey;
    DisksAppend(front, [s] + back, k);
    DisksAppend([s], back, k);
    HasAppend(front, [s] + back, k);
    HasAppend([s], back, k);
    OneStatus(s, k);
  }

  lemma SwappedDisks<Disk>(xs: seq<SetStatus<Disk>>, m: nat)
    requires 0 < m < |xs|
    ensures SameDisks(xs[m := xs[m - 1]][m - 1 := xs[m]], xs)
  {
    var x, y, front, back := xs[m - 1], xs[m], xs[..m - 1], xs[m + 1..];
    var ys := xs[m := x][m - 1 := y];
    assert xs == front + ([x] + ([y] + back)) && ys == front + ([y] + ([x] + back));
    forall k: Key
      ensures HasKey(ys, k) <==> HasKey(xs, k)
      ensures multiset(DisksOf(ys, k)) == multiset(DisksOf(xs, k))
    {
      SwappedAt(front, x, y, back, k);
    }
  }

  lemma SwappedAt<Disk>(
    front: seq<SetStatus<Disk>>, x: SetStatus<Disk>, y: SetStatus<Disk>, back: seq<SetStatus<Disk>>, k: Key)
    ensures var (xs, ys) := (front + ([x] + ([y] + back)), front + ([y] + ([x] + back)));
            (HasKey(xs, k) <==> HasKey(ys, k)) && multiset(DisksOf(xs, k)) == multiset(DisksOf(ys, k))
  {
    hide DisksOf, HasKey;
    InMiddle(front, x, [y] + back, k);
    InMiddle(front, y, [x] + back, k);
    InMiddle([], y, back, k);
    InMiddle([], x, back, k);
    NoStatus<Disk>(k);
    assert [] + ([y] + back) == [y] + back && [] + ([x] + back) == [x] + back;
    var dx, dy := if x.key == k then x.disks else [], if y.key == k then y.disks else [];
    BagOfMiddle(DisksOf(front, k), dx, dy, DisksOf(back, k));
    assert [] + dx == dx && [] + dy == dy;
  }

  lemma {:induction false} NoStatus<Disk>(k: Key)
    ensures DisksOf<Disk>([], k) == [] && !HasKey<Disk>([], k)
  {
  }

  // ----- What a merge gathers

  /**
   From b these statuses were gathered into `now`: the same disks under the same keys and, if b had unique
   keys, unique keys with the same views.
   */
  ghost predicate Gathers<Disk>(b: seq<SetStatus<Disk>>, now: seq<SetStatus<Disk>>, all: seq<SetStatus<Disk>>) {
    SameDisks(now, all) && (Unique(b) ==> Unique(now) && SameViews(now, all))
  }

  lemma GathersNothing<Disk>(b: seq<SetStatus<Disk>>)
    ensures Gathers(b, b, b)
  {
  }

  lemma GathersMore<Disk>(
    b: seq<SetStatus<Disk>>, before: seq<SetStatus<Disk>>, all: seq<SetStatus<Disk>>,
    now: seq<SetStatus<Disk>>, more: seq<SetStatus<Disk>>)
    requires Gathers(b, before, all) && Gathers(before, now, before + more)
    ensures Gathers(b, now, all + more)
  {
    SameDisksMore(before, all, more);
    if Unique(b) {
      SameViewsMore(before, all, more);
      SameViewsTrans(now, before + more, all + more);
    }
    SameDisksTrans(now, before + more, all + more);
    hide SameDisks, SameViews, Unique;
  }

  lemma SameDisksTrans<Disk>(xs: seq<SetStatus<Disk>>, ys: seq<SetStatus<Disk>>, zs: seq<SetStatus<Disk>>)
    requires SameDisks(xs, ys) && SameDisks(ys, zs)
    ensures SameDisks(xs, zs)
  {
  }

  // ----- The merge

  ghost function AllSets<Disk>(others: seq<State<Disk>>): seq<SetStatus<Disk>> {
    if others == [] then [] else AllSets(others[..|others| - 1]) + others[|others| - 1].sets
  }

  lemma AllSetsNone<Disk>(sets: seq<SetStatus<Disk>>)
    ensures sets + AllSets([]) == sets
  {
  }

  lemma {:induction false} AllSetsMore<Disk>(others: seq<State<Disk>>, o: State<Disk>)
    ensures AllSets(others + [o]) == AllSets(others) + o.sets
  {
    assert (others + [o])[..|others|] == others;
  }

  function Entries<V>(m: Option<map<string, V>>): map<string, V> { if m.None? then map[] else m.value }

  /** Before the loop over the nodes: the parities are those of the first node, unless already known. */
  function Begin<Disk>(b: State<Disk>, others: seq<State<Disk>>): State<Disk> {
    b.(sets := [], mrf := Some(Entries(b.mrf)),
       scParity := if b.scParity.None? && others != [] then Some(Entries(others[0].scParity)) else b.scParity)
  }

  /** One round of that loop, but for the sets. */
  function Step<Disk>(r: State<Disk>, o: State<Disk>): State<Disk> {
    r.(offlineEndpoints := r.offlineEndpoints + o.offlineEndpoints,
       scannedItemsCount := r.scannedItemsCount + o.scannedItemsCount,
       mrf := Some(Entries(r.mrf) + Entries(o.mrf)))
  }

  function Steps<Disk>(r: State<Disk>, others: seq<State<Disk>>): (x: State<Disk>)
    ensures x.sets == r.sets && x.scParity == r.scParity && x.healDisks == r.healDisks && (r.mrf.Some? ==> x.mrf.Some?)
  {
    if others == [] then r else Step(Steps(r, others[..|others| - 1]), others[|others| - 1])
  }

  /** Everything but the sets. */
  function Rest<Disk>(b: State<Disk>, others: seq<State<Disk>>): State<Disk> { Steps(Begin(b, others), others) }

  lemma {:induction false} StepsMore<Disk>(r: State<Disk>, others: seq<State<Disk>>, o: State<Disk>)
    ensures Steps(r, others + [o]) == Step(Steps(r, others), o)
  {
    assert (others + [o])[..|others|] == others;
  }

  /** The items these nodes scanned. */
  function Scanned<Disk>(others: seq<State<Disk>>): int {
    if others == [] then 0 else others[0].scannedItemsCount + Scanned(others[1..])
  }

  /** The endpoints these nodes report as offline, node by node. */
  function Offline<Disk>(others: seq<State<Disk>>): seq<string> {
    if others == [] then [] else others[0].offlineEndpoints + Offline(others[1..])
  }

  lemma {:induction false} NodesMore<Disk>(others: seq<State<Disk>>, o: State<Disk>)
    ensures Scanned(others + [o]) == Scanned(others) + o.scannedItemsCount
    ensures Offline(others + [o]) == Offline(others) + o.offlineEndpoints
  {
    if others == [] {
      assert [] + [o] == [o] && [o][1..] == [];
    } else {
      assert (others + [o])[1..] == others[1..] + [o];
      NodesMore(others[1..], o);
      Assoc(others[0].offlineEndpoints, Offline(others[1..]), o.offlineEndpoints);
    }
  }

  /** Everything is counted once and gathered in argument order. */
  lemma {:induction false} StepsGather<Disk>(r: State<Disk>, others: seq<State<Disk>>)
    ensures Steps(r, others).scannedItemsCount == r.scannedItemsCount + Scanned(others)
    ensures Steps(r, others).offlineEndpoints == r.offlineEndpoints + Offline(others)
  {
    if others == [] {
      assert r.offlineEndpoints + [] == r.offlineEndpoints;
    } else {
      var n := |others| - 1;
      StepsGather(r, others[..n]);
      assert others == others[..n] + [others[n]];
      NodesMore(others[..n], others[n]);
      Assoc(r.offlineEndpoints, Offline(others[..n]), others[n].offlineEndpoints);
    }
  }

  lemma {:induction false} RestGathers<Disk>(b: State<Disk>, others: seq<State<Disk>>)
    ensures Rest(b, others).scannedItemsCount == b.scannedItemsCount + Scanned(others)
    ensures Rest(b, others).offlineEndpoints == b.offlineEndpoints + Offline(others)
    ensures Rest(b, others).healDisks == b.healDisks
  {
    StepsGather(Begin(b, others), others);
  }

  /**
   What merging these states into b must give: the sets ordered by key, each once, and every set with
   its first label and with the disks of b and then of the others, in order.
   */
  ghost predicate Merges<Disk>(b: State<Disk>, others: seq<State<Disk>>, r: State<Disk>) {
    && r.(sets := []) == Rest(b, others)
    && Strict(r.sets) && SameViews(r.sets, b.sets + AllSets(others))
  }
}
