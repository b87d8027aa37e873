/**
 The disks of an erasure set as Go stores them: a slice is a length and an array that may be longer, and
 that other slices may share.  Appending writes the spare room of the array, if there is enough.
 */
module HealSlices {
  import opened Basics
  import opened HealStates

  datatype Slice<!Disk> = Slice(store: array<Disk>, len: nat) {
    predicate Valid() { len <= store.Length }

    predicate Full() { len == store.Length }

    ghost function Disks(): (d: seq<Disk>)
      requires Valid()
      reads store
      ensures |d| == len
    {
      store[..len]
    }
  }

  /** `append(s, more...)`; how much room a new array has is left open. */
  method Append<Disk(0)>(s: Slice<Disk>, more: Slice<Disk>, ghost watchers: seq<Slice<Disk>>)
    returns (r: Slice<Disk>)
    requires s.Valid() && more.Valid() && forall v <- watchers :: v.Valid()
    modifies s.store
    ensures r.Valid() && r.len == s.len + more.len && r.Disks() == old(s.Disks()) + old(more.Disks())
    ensures fresh(r.store) || r == s || (r.store == s.store && !s.Full())
    ensures r.store == s.store <==> r.len <= s.store.Length
    ensures forall v <- watchers :: (v.store == s.store && !s.Full() ==> v.len <= s.len) ==>
      v.Disks() == old(v.Disks())
  {
    var n := s.len + more.len;
    ghost var mine, theirs := s.Disks(), more.Disks();
    if n <= s.store.Length {
      forall k | 0 <= k < more.len {
        s.store[s.len + k] := more.store[k];
      }
      r := Slice(s.store, n);
      assert forall k :: 0 <= k < more.len ==> r.store[s.len + k] == theirs[k];
    } else {
      var room: nat :| room >= 0;
      var store := new Disk[n + room];
      forall k | 0 <= k < s.len {
        store[k] := s.store[k];
      }
      forall k | 0 <= k < more.len {
        store[s.len + k] := more.store[k];
      }
      r := Slice(store, n);
    }
    forall k | s.len <= k < n ensures r.store[k] == theirs[k - s.len] {
      assert r.store[s.len + (k - s.len)] == theirs[k - s.len];
    }
    assert r.Disks() == mine + theirs;
    forall v <- watchers | v.store == s.store && !s.Full() ==> v.len <= s.len
      ensures v.Disks() == old(v.Disks())
    {
      if v.store == s.store && !s.Full() {
        assert forall k :: 0 <= k < v.len ==> v.store[k] == old(v.store[k]);
      }
    }
  }

  /**
   Two holders of one slice each append one disk.  Nothing is lost if and only if the slice is full, or
   both append the same: otherwise the second overwrites the disk of the first.
   */
  method BothAppend<Disk(0)>(s: Slice<Disk>, x: Slice<Disk>, y: Slice<Disk>)
    returns (first: Slice<Disk>, second: Slice<Disk>)
    requires s.Valid() && x.Valid() && y.Valid() && x.len == y.len == 1
    requires s.store != x.store && s.store != y.store
    modifies s.store
    ensures first.Valid() && second.Valid()
    ensures second.Disks() == old(s.Disks()) + old(y.Disks())
    ensures first.Disks() == old(s.Disks()) + (if s.Full() then old(x.Disks()) else old(y.Disks()))
  {
    first := Append(s, x, [s, y]);
    second := Append(s, y, [s, first]);
    assert !s.Full() ==> first == second;
  }

  // ----- Statuses that hold slices

  datatype Held<!Disk> = Held(key: Key, head: Label, disks: Slice<Disk>) {
    ghost function Status(): SetStatus<Disk>
      requires disks.Valid()
      reads disks.store
    {
      SetStatus(key, head, disks.Disks())
    }
  }

  predicate AllValid<Disk>(sets: seq<Held<Disk>>) { forall h <- sets :: h.disks.Valid() }

  function Stores<Disk>(sets: seq<Held<Disk>>): set<array<Disk>> { set h <- sets :: h.disks.store }

  ghost function Read<Disk>(sets: seq<Held<Disk>>): (r: seq<SetStatus<Disk>>)
    requires AllValid(sets)
    reads Stores(sets)
    ensures |r| == |sets| && forall i :: 0 <= i < |sets| ==> r[i] == sets[i].Status()
  {
    if sets == [] then [] else Read(sets[..|sets| - 1]) + [sets[|sets| - 1].Status()]
  }

  function Slices<Disk>(sets: seq<Held<Disk>>): (r: seq<Slice<Disk>>)
    ensures |r| == |sets| && forall i :: 0 <= i < |sets| ==> r[i] == sets[i].disks
  {
    seq(|sets|, i requires 0 <= i < |sets| => sets[i].disks)
  }

  // ----- Who may write where

  /** Only one of them has room to write, if they share an array at all. */
  predicate Separate<Disk>(a: Slice<Disk>, b: Slice<Disk>) { a.store == b.store ==> a.Full() && b.Full() }

  /** What w may append does not show in r. */
  predicate Beyond<Disk>(w: Slice<Disk>, r: Slice<Disk>) { w.store == r.store ==> w.Full() || r.len <= w.len }

  /** These writers do not disturb each other, nor these readers. */
  ghost predicate Safe<Disk>(writers: seq<Slice<Disk>>, readers: seq<Slice<Disk>>) {
    && (forall i, j :: 0 <= i < j < |writers| ==> Separate(writers[i], writers[j]))
    && (forall w <- writers, r <- readers :: Beyond(w, r))
  }

  /**
   The receiver may adopt this slice: it is full, or no other writer has its array, except under the key
   under which it would be added anyway, and all that others see of the array is within it.
   */
  ghost predicate Lent<Disk>(
    a: Held<Disk>, sets: seq<Held<Disk>>, foreign: seq<Slice<Disk>>, readers: seq<Slice<Disk>>)
  {
    && a.disks in readers
    && (!a.disks.Full() ==>
      && (forall h <- sets :: h.disks.store == a.disks.store ==> h.key == a.key)
      && (forall q <- foreign :: q.store != a.disks.store)
      && (forall r <- readers :: Beyond(a.disks, r)))
  }

  // ----- What a merge may meet

  /**
   What there is besides the receiver: the statuses to be merged, the slices that other receivers hold and
   may append to, and those that are only read.
   */
  datatype World<!Disk> = World(more: seq<Held<Disk>>, foreign: seq<Slice<Disk>>, readers: seq<Slice<Disk>>) {
    ghost predicate Valid() { AllValid(more) && forall r <- foreign + readers :: r.Valid() }

    /** No two writers share room, and each status to be merged may be adopted when its turn comes. */
    ghost predicate Fine(sets: seq<Held<Disk>>) {
      && Safe(Slices(sets) + foreign, readers)
      && (forall a <- more :: Lent(a, sets, foreign, readers))
      && (forall a <- more, b <- more :: a.disks.store == b.disks.store && !a.disks.Full() ==> a.key == b.key)
    }
  }

  lemma SafeExtended<Disk>(ws: seq<Slice<Disk>>, i: nat, d: Slice<Disk>, readers: seq<Slice<Disk>>)
    requires i < |ws| && Safe(ws, readers) && ws[i].len <= d.len
    requires
      || d == ws[i] || (d.store == ws[i].store && !ws[i].Full())
      || ((forall w <- ws :: w.store != d.store) && forall r <- readers :: r.store != d.store)
    ensures Safe(ws[i := d], readers)
  {
    var vs := ws[i := d];
    forall w <- vs, r <- readers ensures Beyond(w, r) {
      if w != d {
        assert w in ws;
      } else {
        assert ws[i] in ws && Beyond(ws[i], r);
      }
    }
    forall j, k | 0 <= j < k < |vs| ensures Separate(vs[j], vs[k]) {
      assert Separate(ws[j], ws[k]) && ws[j] in ws && ws[k] in ws;
    }
  }

  lemma SafeAdopted<Disk>(
    own: seq<Slice<Disk>>, a: Slice<Disk>, foreign: seq<Slice<Disk>>, readers: seq<Slice<Disk>>)
    requires Safe(own + foreign, readers) && a in readers && forall w <- own + foreign :: w.Valid()
    requires !a.Full() ==>
      (forall w <- own + foreign :: w.store != a.store) && forall r <- readers :: Beyond(a, r)
    ensures Safe(own + [a] + foreign, readers)
  {
    var ws, vs, n := own + foreign, own + [a] + foreign, |own|;
    forall w <- ws ensures Separate(w, a) && Separate(a, w) {
      assert Beyond(w, a);
    }
    forall j, k | 0 <= j < k < |vs| ensures Separate(vs[j], vs[k]) {
      if j != n && k != n {
        assert Separate(ws[if j < n then j else j - 1], ws[if k < n then k else k - 1]);
      } else if j == n {
        assert vs[k] == ws[k - 1] && ws[k - 1] in ws;
      } else {
        assert vs[j] == ws[j] && ws[j] in ws;
      }
    }
    forall w <- vs, r <- readers ensures Beyond(w, r) {
      assert w == a || w in ws;
    }
  }

  /** Statuses are still lent if all arrays now held are new, or were held under the same key, or came with one. */
  lemma StillLent<Disk>(w: World<Disk>, before: seq<Held<Disk>>, now: seq<Held<Disk>>, a: Held<Disk>)
    requires a in w.more && Lent(a, before, w.foreign, w.readers)
    requires forall h <- now :: h.disks.store == a.disks.store && !a.disks.Full() ==>
      h.key == a.key || exists o <- before :: o.key == h.key && o.disks.store == h.disks.store
    ensures Lent(a, now, w.foreign, w.readers)
  {
  }
}
