/**
 What the codecs guarantee.  `Denotes` says which MessagePack objects are wire forms of a value: any
 integer format, fields and map entries in any order, unknown fields in between.  Encoding writes
 exactly one such object; decoding any such object, into any receiver and with anything behind it,
 gives the value back and leaves exactly what was behind.
 */
module WireForms {
  import opened Basics
  import opened MsgPack
  import opened Schema

  // ----- Wire forms

  /** The object o is a wire form of the value v of type t. */
  ghost predicate Denotes(t: Type, o: Obj, v: Value)
    requires o.Valid() && Has(t, v)
    decreases t, 0, 0
  {
    match t
    case TBool => o.head == Bool(v.b)
    case TInt(_) => (o.head.Int? || o.head.Uint?) && o.head.n == v.i
    case TUint(_) => (o.head.Int? || o.head.Uint?) && o.head.n == v.i
    case TFloat => o.head == Float(8, v.bits)
    case TStr => o.head.Str? && o.head.s == v.s
    case TTime => o.head == TimeHead(v.ns)
    case TOpt(e) => if v.VNull? then o.head == Nil else o.head != Nil && Denotes(e, o, v.v)
    case TSlice(e) => o.head.Arr? && o.head.n == v.len && DenotesItems(e, o.kids, v.backing[..v.len])
    case TDict(e) =>
      && o.head.Map? && o.head.n == |v.entries| && DenotesEntries(e, o.kids, v.entries)
      && forall i :: 0 <= i < |v.entries| ==> Named(o.kids, v.entries[i].key)
    case TRecord(fs) =>
      && o.head.Map? && DenotesFields(fs, o.kids, v.vals)
      && forall i :: 0 <= i < |fs| ==> Named(o.kids, fs[i].name) || Omitted(fs[i], v.vals[i])
  }

  /** Item by item. */
  ghost predicate DenotesItems(e: Type, os: seq<Obj>, vs: seq<Value>)
    requires AllValid(os) && HasAll(e, vs)
    decreases e, 1, |vs|
  {
    |os| == |vs| && (os != [] ==> Denotes(e, os[0], vs[0]) && DenotesItems(e, os[1..], vs[1..]))
  }

  /** Every pair is an entry of the map, and no key comes twice. */
  ghost predicate DenotesEntries(e: Type, kids: seq<Obj>, es: seq<Entry>)
    requires AllValid(kids) && EntriesOk(e, es)
    decreases e, 1, |kids|
  {
    kids == [] ||
    (&& |kids| >= 2 && kids[0].head.Str? && !Named(kids[2..], kids[0].head.s)
     && (exists j :: 0 <= j < |es| && es[j].key == kids[0].head.s && Denotes(e, kids[1], es[j].value))
     && DenotesEntries(e, kids[2..], es))
  }

  /** Every pair whose key names a field is a wire form of that field; the others may be anything. */
  ghost predicate DenotesFields(fs: seq<Field>, kids: seq<Obj>, vs: seq<Value>)
    requires AllValid(kids) && HasFields(fs, vs)
    decreases fs, 1, |kids|
  {
    kids == [] ||
    (&& |kids| >= 2 && kids[0].head.Str?
     && (forall i :: 0 <= i < |fs| && fs[i].name == kids[0].head.s ==> Denotes(fs[i].typ, kids[1], vs[i]))
     && DenotesFields(fs, kids[2..], vs))
  }

  /** One of the pairs has this key. */
  ghost predicate Named(kids: seq<Obj>, name: bytes) {
    |kids| >= 2 && ((kids[0].head.Str? && kids[0].head.s == name) || Named(kids[2..], name))
  }

  // ----- Encoding writes one wire form

  lemma {:induction false} EncodeObject(t: Type, v: Value) returns (o: Obj)
    requires t.Ok() && Has(t, v)
    ensures o.Valid() && o.Bytes() == Encode(t, v) && Denotes(t, o, v)
    decreases t, 0, 0
  {
    hide Head.Bytes;
    match t
    case TOpt(e) =>
      if v.VNull? {
        o := Atom(Nil);
      } else {
        o := EncodeObject(e, v.v);
        NeverNil(e, o, v.v);
      }
    case TSlice(e) =>
      var kids := EncodeItemsObjects(e, v.backing[..v.len]);
      o := Obj(ArrHead(v.len), kids);
    case TDict(e) =>
      var kids := EncodeEntriesObjects(e, v.entries, v.entries);
      o := Obj(MapHead(|v.entries|), kids);
    case TRecord(fs) =>
      var kids := EncodeFieldsObjects(fs, v.vals);
      o := Obj(MapHead(Count(fs, v.vals)), kids);
    case _ =>
      o := EncodeBasicObject(t, v);
  }

  predicate Basic(t: Type) { !t.TOpt? && !t.TSlice? && !t.TDict? && !t.TRecord? }

  lemma EncodeBasicObject(t: Type, v: Value) returns (o: Obj)
    requires Basic(t) && Has(t, v)
    ensures o.Valid() && o.Bytes() == Encode(t, v) && Denotes(t, o, v)
  {
    hide Head.Bytes;
    match t
    case TBool => o := Atom(Bool(v.b));
    case TInt(w) => o := Atom(IntHead(w, v.i));
    case TUint(w) => o := Atom(UintHead(w, v.i));
    case TFloat => o := Atom(Float(8, v.bits));
    case TStr => o := Atom(StrHead(v.s));
    case TTime => o := Atom(TimeHead(v.ns));
  }

  lemma Atom(h: Head) returns (o: Obj)
    requires h.Valid() && h.Arity() == 0
    ensures o == Obj(h, []) && o.Valid() && o.Bytes() == h.Bytes()
  {
    o := Obj(h, []);
    assert h.Bytes() + [] == h.Bytes();
  }

  lemma {:induction false} NeverNil(t: Type, o: Obj, v: Value)
    requires !t.TOpt? && o.Valid() && Has(t, v) && Denotes(t, o, v)
    ensures o.head != Nil
  {
  }

  lemma {:induction false} EncodeItemsObjects(e: Type, vs: seq<Value>) returns (os: seq<Obj>)
    requires e.Ok() && HasAll(e, vs)
    ensures |os| == |vs| && AllValid(os) && BytesAll(os) == EncodeItems(e, vs) && DenotesItems(e, os, vs)
    decreases e, 1, |vs|
  {
    if vs == [] {
      os := [];
    } else {
      var o := EncodeObject(e, vs[0]);
      var rest := EncodeItemsObjects(e, vs[1..]);
      os := [o] + rest;
      assert os[1..] == rest;
    }
  }

  /** One more entry in front of those with other keys. */
  lemma {:induction false} EntryAdded(e: Type, kids: seq<Obj>, x: Entry, es: seq<Entry>, all: seq<Entry>)
    requires AllValid(kids) && EntriesOk(e, all) && |kids| >= 2 && kids[0].head.Str? && kids[0].head.s == x.key
    requires x in all && Has(e, x.value) && Denotes(e, kids[1], x.value) && DenotesEntries(e, kids[2..], all)
    requires forall key :: Named(kids[2..], key) <==> exists y <- es :: y.key == key
    requires forall y <- es :: y.key != x.key
    ensures DenotesEntries(e, kids, all)
    ensures forall key :: Named(kids, key) <==> exists y <- [x] + es :: y.key == key
  {
    hide Has, Denotes;
    var j :| 0 <= j < |all| && all[j] == x;
    hide DenotesEntries, Distinct;
    forall key ensures Named(kids, key) <==> exists y <- [x] + es :: y.key == key {
      assert x in [x] + es && forall y <- es :: y in [x] + es;
    }
  }

  lemma {:induction false} EncodeEntriesObjects(e: Type, es: seq<Entry>, all: seq<Entry>) returns (kids: seq<Obj>)
    requires e.Ok() && EntriesOk(e, es) && EntriesOk(e, all) && forall x <- es :: x in all
    ensures |kids| == 2 * |es| && AllValid(kids) && BytesAll(kids) == EncodeEntries(e, es)
    ensures DenotesEntries(e, kids, all)
    ensures forall key :: Named(kids, key) <==> exists x <- es :: x.key == key
    decreases e, 1, |es|
  {
    hide Head.Bytes, Obj.Bytes, Has, Denotes, Encode, StrHead;
    if es == [] {
      kids := [];
    } else {
      var k := Atom(StrHead(es[0].key));
      var o := EncodeObject(e, es[0].value);
      var rest := EncodeEntriesObjects(e, es[1..], all);
      kids := Paired(k, o, rest);
      assert es[0] in all && es == [es[0]] + es[1..];
      hide DenotesEntries, Named;
      EntryAdded(e, kids, es[0], es[1..], all);
    }
  }

  /** A pair in front of others. */
  lemma Paired(k: Obj, o: Obj, rest: seq<Obj>) returns (kids: seq<Obj>)
    requires k.Valid() && o.Valid() && AllValid(rest)
    ensures kids == [k, o] + rest && AllValid(kids) && kids[2..] == rest && kids[0] == k && kids[1] == o
    ensures BytesAll(kids) == k.Bytes() + o.Bytes() + BytesAll(rest)
  {
    hide Head.Bytes;
    kids := [k, o] + rest;
    assert kids[1..] == [o] + rest && kids[1..][1..] == rest == kids[2..];
    Assoc(k.Bytes(), o.Bytes(), BytesAll(rest));
  }

  lemma {:induction false} EncodeFieldsObjects(fs: seq<Field>, vs: seq<Value>) returns (kids: seq<Obj>)
    requires FieldsOk(fs) && HasFields(fs, vs)
    ensures |kids| == 2 * Count(fs, vs) && AllValid(kids) && BytesAll(kids) == EncodeFields(fs, vs)
    ensures DenotesFields(fs, kids, vs)
    ensures forall i :: 0 <= i < |fs| ==> Named(kids, fs[i].name) || Omitted(fs[i], vs[i])
    ensures forall name :: Named(kids, name) ==> exists i :: 0 <= i < |fs| && fs[i].name == name
    decreases fs, 1, |fs|
  {
    hide Head.Bytes, Has, Denotes, Encode, StrHead;
    if fs == [] {
      kids := [];
    } else {
      var rest := EncodeFieldsObjects(fs[1..], vs[1..]);
      DenotesMoreFields(fs, rest, vs);
      if Omitted(fs[0], vs[0]) {
        kids := rest;
        assert [] + BytesAll(rest) == BytesAll(rest);
      } else {
        var k := Atom(StrHead(fs[0].name));
        var o := EncodeObject(fs[0].typ, vs[0]);
        kids := Paired(k, o, rest);
      }
      hide DenotesFields, BytesAll, EncodeFields, Count, AllValid;
      forall i | 0 <= i < |fs| ensures Named(kids, fs[i].name) || Omitted(fs[i], vs[i]) {
        if i > 0 { assert fs[i] == fs[1..][i - 1]; }
      }
      forall name | Named(kids, name) ensures exists i :: 0 <= i < |fs| && fs[i].name == name {
        if Named(rest, name) {
          var i :| 0 <= i < |fs[1..]| && fs[1..][i].name == name;
          assert fs[i + 1].name == name;
        } else {
          assert fs[0].name == name;
        }
      }
    }
  }

  /** Pairs for the later fields say nothing about a first field of another name. */
  lemma {:induction false} DenotesMoreFields(fs: seq<Field>, kids: seq<Obj>, vs: seq<Value>)
    requires fs != [] && FieldsOk(fs) && HasFields(fs, vs) && AllValid(kids)
    requires DenotesFields(fs[1..], kids, vs[1..])
    requires forall name :: Named(kids, name) ==> exists i :: 0 <= i < |fs[1..]| && fs[1..][i].name == name
    ensures DenotesFields(fs, kids, vs)
    decreases |kids|
  {
    hide Denotes, Has;
    if kids != [] {
      assert Named(kids, kids[0].head.s);
      var i :| 0 <= i < |fs[1..]| && fs[1..][i].name == kids[0].head.s;
      assert fs[i + 1].name == kids[0].head.s;
      forall j | 0 <= j < |fs| && fs[j].name == kids[0].head.s ensures Denotes(fs[j].typ, kids[1], vs[j]) {
        assert j == i + 1 && fs[j] == fs[1..][i] && vs[j] == vs[1..][i];
      }
      forall name | Named(kids[2..], name) ensures exists i :: 0 <= i < |fs[1..]| && fs[1..][i].name == name {
        assert Named(kids, name);
      }
      DenotesMoreFields(fs, kids[2..], vs);
    }
  }

  // ----- Decoding reads every wire form

  /** r is the value v followed by the tail. */
  ghost predicate Reads(r: Result<(Value, bytes)>, v: Value, tail: bytes) {
    r.Ok? && r.value.1 == tail && Same(v, r.value.0)
  }

  lemma {:induction false} ReadObject(o: Obj, tail: bytes)
    requires o.Valid()
    ensures o.Bytes() + tail != []
    ensures ReadHead(o.Bytes() + tail) == Ok((o.head, BytesAll(o.kids) + tail))
    ensures o.kids == [] ==> BytesAll(o.kids) + tail == tail
  {
    Assoc(o.head.Bytes(), BytesAll(o.kids), tail);
    ReadHeadBytes(o.head, BytesAll(o.kids) + tail);
    if o.kids == [] {
      assert [] + tail == tail;
    }
  }

  /** A nil byte starts the object nil and no other. */
  lemma {:induction false} NilByte(o: Obj, tail: bytes)
    requires o.Valid()
    ensures o.Bytes() + tail != [] && ((o.Bytes() + tail)[0] == 0xc0 <==> o.head == Nil)
    ensures o.head == Nil ==> (o.Bytes() + tail)[1..] == tail
  {
    assert (o.Bytes() + tail)[0] == o.head.Lead();
    if o.head == Nil {
      assert o.Bytes() == [0xc0];
    }
  }

  lemma {:induction false} ReadBasicDenoted(t: Type, o: Obj, v: Value)
    requires o.Valid() && Has(t, v) && Denotes(t, o, v)
    requires Basic(t)
    ensures ReadBasic(t, o.head) == Result<Value>.Ok(v) && o.kids == []
  {
    if t.TTime? {
      ReadTimeHead(v.ns);
    }
  }

  lemma ReadTimeHead(ns: int)
    requires -INT64 <= ns / SECOND < INT64
    ensures ReadTime(TimeHead(ns)) == Result<Value>.Ok(VTime(ns))
  {
    hide Be, Un;
    var sec, nano := Be(8, Unsigned(8, ns / SECOND)), Be(4, ns % SECOND);
    assert (sec + nano)[..8] == sec && (sec + nano)[8..] == nano;
    UnBe(8, Unsigned(8, ns / SECOND));
    UnBe(4, ns % SECOND);
    assert Signed(8, Unsigned(8, ns / SECOND)) == ns / SECOND && Signed(4, ns % SECOND) == ns % SECOND;
  }

  /**
   Decoding any wire form of v, into a receiver with any contents z and with any tail behind it, gives
   v back and exactly that tail.
   */
  lemma {:induction false} DecodeDenoted(t: Type, z: Value, o: Obj, v: Value, tail: bytes)
    requires t.Ok() && Has(t, z) && Has(t, v) && o.Valid() && Denotes(t, o, v)
    ensures Reads(Decode(t, z, o.Bytes() + tail), v, tail)
    decreases t, 2, 0
  {
    hide Decode, Reads, Obj.Bytes, Obj.Valid;
    match t
    case TOpt(e) =>
      DecodeOptDenoted(e, z, o, v, tail);
    case TSlice(e) =>
      DecodeSliceDenoted(e, z, o, v, tail);
    case TDict(e) =>
      DecodeDictDenoted(e, z, o, v, tail);
    case TRecord(fs) =>
      DecodeRecordDenoted(fs, z, o, v, tail);
    case _ =>
      DecodeBasicDenoted(t, z, o, v, tail);
  }

  lemma {:induction false} DecodeBasicDenoted(t: Type, z: Value, o: Obj, v: Value, tail: bytes)
    requires Basic(t) && Has(t, z) && Has(t, v) && o.Valid() && Denotes(t, o, v)
    ensures Reads(Decode(t, z, o.Bytes() + tail), v, tail)
  {
    hide ReadHead, Head.Bytes, Obj.Bytes, ReadBasic;
    ReadObject(o, tail);
    ReadBasicDenoted(t, o, v);
    hide Denotes, Has;
  }

  lemma {:induction false} DecodeOptDenoted(e: Type, z: Value, o: Obj, v: Value, tail: bytes)
    requires var t := TOpt(e); t.Ok() && Has(t, z) && Has(t, v) && o.Valid() && Denotes(t, o, v)
    ensures Reads(Decode(TOpt(e), z, o.Bytes() + tail), v, tail)
    decreases e, 3, 0
  {
    hide Head.Bytes, Obj.Bytes, ReadHead, ReadBasic, DecodeItems, DecodeEntries, DecodeFields, Obj.Valid;
    NilByte(o, tail);
    if !v.VNull? {
      DecodeDenoted(e, if z.VPtr? then z.v else Zero(e), o, v.v, tail);
    }
  }

  lemma {:induction false} DecodeSliceDenoted(e: Type, z: Value, o: Obj, v: Value, tail: bytes)
    requires var t := TSlice(e); t.Ok() && Has(t, z) && Has(t, v) && o.Valid() && Denotes(t, o, v)
    ensures Reads(Decode(TSlice(e), z, o.Bytes() + tail), v, tail)
    decreases e, 4, 0
  {
    hide ReadHead, Head.Bytes, Obj.Bytes, BytesAll, DecodeItems, DecodeEntries, DecodeFields, ReadBasic, Same;
    ReadObject(o, tail);
    var n := v.len;
    var backing := if |z.backing| >= n then z.backing else Zeros(e, n);
    assert HasAll(e, backing[..n]) && HasAll(e, v.backing[..n]);
    hide Has, Denotes;
    DecodeItemsDenoted(e, backing[..n], o.kids, v.backing[..n], tail);
    SliceSame(v, DecodeItems(e, backing[..n], BytesAll(o.kids) + tail).value.0, backing[n..], z.isNil && n == 0);
  }

  lemma {:induction false} SliceSame(v: Value, items: seq<Value>, spare: seq<Value>, isNil: bool)
    requires v.VSlice? && |items| == v.len <= |v.backing|
    requires forall i :: 0 <= i < v.len ==> Same(v.backing[..v.len][i], items[i])
    ensures Same(v, VSlice(isNil, v.len, items + spare))
  {
    forall i | 0 <= i < v.len ensures Same(v.backing[i], (items + spare)[i]) {
      assert v.backing[..v.len][i] == v.backing[i] && (items + spare)[i] == items[i];
    }
  }

  lemma {:induction false} DecodeDictDenoted(e: Type, z: Value, o: Obj, v: Value, tail: bytes)
    requires e.Ok() && Has(TDict(e), z) && Has(TDict(e), v) && o.Valid() && o.head.Map?
    requires v.VDict? && EntriesOk(e, v.entries) && o.head.n == |v.entries| && DenotesEntries(e, o.kids, v.entries)
    requires forall i :: 0 <= i < |v.entries| ==> Named(o.kids, v.entries[i].key)
    ensures Reads(Decode(TDict(e), z, o.Bytes() + tail), v, tail)
    decreases e, 4, 0
  {
    hide ReadHead, Head.Bytes, Obj.Bytes, BytesAll, Same, DecodeEntries, Has, DenotesEntries, Collects;
    ReadObject(o, tail);
    DecodeEntriesDenoted(e, [], o.kids, v.entries, tail);
    DictSame(v.isNil, v.entries, o.kids, DecodeEntries(e, [], |o.kids| / 2, BytesAll(o.kids) + tail).value.0);
  }

  lemma {:induction false} DecodeRecordDenoted(fs: seq<Field>, z: Value, o: Obj, v: Value, tail: bytes)
    requires FieldsOk(fs) && Has(TRecord(fs), z) && z.VRecord? && HasFields(fs, z.vals)
    requires v.VRecord? && HasFields(fs, v.vals) && o.Valid() && o.head.Map? && DenotesFields(fs, o.kids, v.vals)
    requires forall i :: 0 <= i < |fs| ==> Named(o.kids, fs[i].name) || Omitted(fs[i], v.vals[i])
    ensures Reads(Decode(TRecord(fs), z, o.Bytes() + tail), v, tail)
    decreases fs, 4, 0
  {
    hide ReadHead, Head.Bytes, Obj.Bytes, BytesAll, Same, DecodeFields, Has, DenotesFields, Named, Cleared;
    ReadObject(o, tail);
    DecodeFieldsDenoted(fs, z.vals, {}, o.kids, v.vals, tail);
    var r := DecodeFields(fs, z.vals, {}, |o.kids| / 2, BytesAll(o.kids) + tail);
    RecordSame(fs, v.vals, r.value.0, r.value.1);
  }

  /** Distinct keys, all of them gathered with their values: the same map. */
  lemma {:induction false} DictSame(isNil: bool, es: seq<Entry>, kids: seq<Obj>, r: seq<Entry>)
    requires Distinct(es) && Distinct(r) && |kids| == 2 * |es| && Collects([], kids, es, r)
    requires forall i :: 0 <= i < |es| ==> Named(kids, es[i].key)
    ensures Same(VDict(isNil, es), VDict(false, r))
  {
    hide Same;
    forall i | 0 <= i < |es| ensures SameEntry(es[i], r) {
      assert Named(kids, es[i].key);
      var x :| x in r && x.key == es[i].key;
      var y :| y in es && x.key == y.key && Same(y.value, x.value);
      var j :| 0 <= j < |r| && r[j] == x;
      assert y == es[i] && Find(r, x.key) == j;
    }
    SameDict(isNil, es, r);
  }

  lemma {:induction false} SameDict(isNil: bool, es: seq<Entry>, r: seq<Entry>)
    requires |es| == |r| && forall i :: 0 <= i < |es| ==> SameEntry(es[i], r)
    ensures Same(VDict(isNil, es), VDict(false, r))
  {
    hide SameEntry;
  }

  lemma {:induction false} RecordSame(fs: seq<Field>, vs: seq<Value>, ws: seq<Value>, seen: set<nat>)
    requires FieldsOk(fs) && HasFields(fs, vs) && HasFields(fs, ws)
    requires forall i :: 0 <= i < |fs| ==> if i in seen then Same(vs[i], ws[i]) else Omitted(fs[i], vs[i])
    ensures Same(VRecord(vs), VRecord(Cleared(fs, ws, seen)))
  {
    forall i | 0 <= i < |fs| ensures Same(vs[i], Cleared(fs, ws, seen)[i]) {
      if i !in seen {
        ZeroSame(fs[i].typ, vs[i]);
      } else if fs[i].omit {
        assert Cleared(fs, ws, seen)[i] == ws[i];
      }
    }
  }

  /** What the test for omission calls zero is the zero value, up to nil or empty. */
  lemma {:induction false} ZeroSame(t: Type, v: Value)
    requires Has(t, v) && IsZero(v)
    ensures Same(v, Zero(t))
  {
  }

  lemma {:induction false} DecodeItemsDenoted(e: Type, zs: seq<Value>, os: seq<Obj>, vs: seq<Value>, tail: bytes)
    requires e.Ok() && HasAll(e, zs) && HasAll(e, vs) && |zs| == |vs| && AllValid(os) && DenotesItems(e, os, vs)
    ensures var r := DecodeItems(e, zs, BytesAll(os) + tail);
            && r.Ok? && r.value.1 == tail && |r.value.0| == |vs|
            && forall i :: 0 <= i < |vs| ==> Same(vs[i], r.value.0[i])
    decreases e, 3, |vs|
  {
    hide Head.Bytes, Obj.Bytes, Has, Same, Denotes, Decode;
    if os == [] {
      NoBytes(tail);
    } else {
      var rest := BytesAll(os[1..]) + tail;
      Assoc(os[0].Bytes(), BytesAll(os[1..]), tail);
      DecodeDenoted(e, zs[0], os[0], vs[0], rest);
      DecodeItemsDenoted(e, zs[1..], os[1..], vs[1..], tail);
      var x, more := Decode(e, zs[0], os[0].Bytes() + rest).value.0, DecodeItems(e, zs[1..], rest).value.0;
      SameItems(vs, x, more);
    }
  }

  lemma {:induction false} SameItems(vs: seq<Value>, x: Value, more: seq<Value>)
    requires |vs| == 1 + |more| && Same(vs[0], x) && forall i :: 0 <= i < |more| ==> Same(vs[1..][i], more[i])
    ensures forall i :: 0 <= i < |vs| ==> Same(vs[i], ([x] + more)[i])
  {
    hide Same;
    assert forall i :: 1 <= i < |vs| ==> vs[i] == vs[1..][i - 1];
  }

  lemma {:induction false} ReadPair(kids: seq<Obj>, tail: bytes)
    requires AllValid(kids) && |kids| >= 2 && kids[0].head.Str?
    ensures var rest := BytesAll(kids[2..]) + tail;
            ReadStr(BytesAll(kids) + tail) == Ok((kids[0].head.s, kids[1].Bytes() + rest))
  {
    hide ReadHead, Head.Bytes, Head.Valid;
    var rest := BytesAll(kids[2..]) + tail;
    assert kids[1..][1..] == kids[2..];
    Assoc(kids[1].Bytes(), BytesAll(kids[2..]), tail);
    Assoc(kids[0].Bytes(), BytesAll(kids[1..]), tail);
    ReadObject(kids[0], kids[1].Bytes() + rest);
  }

  /** Every entry is one of the map es, up to sameness. */
  ghost predicate Gathers(acc: seq<Entry>, es: seq<Entry>) {
    forall x <- acc :: exists y <- es :: x.key == y.key && Same(y.value, x.value)
  }

  /** r is acc with one more entry of es for each of the pairs. */
  ghost predicate Collects(acc: seq<Entry>, kids: seq<Obj>, es: seq<Entry>, r: seq<Entry>) {
    && |r| == |acc| + |kids| / 2 && Gathers(r, es) && (forall x <- acc :: x in r)
    && forall key :: Named(kids, key) ==> exists x <- r :: x.key == key
  }

  /** One more pair: a key that has not come yet, with the value that belongs to it. */
  lemma {:induction false} GathersOne(e: Type, acc: seq<Entry>, es: seq<Entry>, y: Entry, value: Value)
    requires EntriesOk(e, acc) && Gathers(acc, es) && y in es && Same(y.value, value)
    requires forall x <- acc :: x.key != y.key
    ensures Gathers(Put(acc, y.key, value), es) && |Put(acc, y.key, value)| == |acc| + 1
    ensures Entry(y.key, value) in Put(acc, y.key, value) && forall x <- acc :: x in Put(acc, y.key, value)
  {
    hide Has, Same;
    PutEntries(acc, y.key, value);
  }

  lemma {:induction false} CollectsOne(acc: seq<Entry>, x: Entry, kids: seq<Obj>, es: seq<Entry>, r: seq<Entry>)
    requires |kids| >= 2 && kids[0].head.Str? && kids[0].head.s == x.key && x in Put(acc, x.key, x.value)
    requires |Put(acc, x.key, x.value)| == |acc| + 1 && forall y <- acc :: y in Put(acc, x.key, x.value)
    requires Collects(Put(acc, x.key, x.value), kids[2..], es, r)
    ensures Collects(acc, kids, es, r)
  {
    hide Put, Gathers;
    forall key | Named(kids, key) ensures exists y <- r :: y.key == key {
      if key == x.key {
        assert x in r;
      } else {
        assert Named(kids[2..], key);
      }
    }
  }

  lemma NoBytes(tail: bytes)
    ensures BytesAll([]) + tail == tail
  {
  }

  /** The first pair belongs to an entry, and its key does not come again. */
  lemma {:induction false} FirstEntry(e: Type, kids: seq<Obj>, es: seq<Entry>) returns (j: nat)
    requires AllValid(kids) && EntriesOk(e, es) && DenotesEntries(e, kids, es) && kids != []
    ensures |kids| >= 2 && kids[0].head.Str? && !Named(kids[2..], kids[0].head.s)
    ensures j < |es| && es[j].key == kids[0].head.s && Denotes(e, kids[1], es[j].value)
    ensures DenotesEntries(e, kids[2..], es)
  {
    hide Has, Denotes, Named;
    j :| 0 <= j < |es| && es[j].key == kids[0].head.s && Denotes(e, kids[1], es[j].value);
  }

  /** No entry read so far has the first key. */
  lemma {:induction false} Unmentioned(acc: seq<Entry>, kids: seq<Obj>)
    requires |kids| >= 2 && kids[0].head.Str? && forall x <- acc :: !Named(kids, x.key)
    ensures forall x <- acc :: x.key != kids[0].head.s
  {
    forall x | x in acc ensures x.key != kids[0].head.s {
      assert !Named(kids, x.key);
    }
  }

  lemma {:induction false} NoPairsLeft(e: Type, acc: seq<Entry>, b: bytes)
    requires EntriesOk(e, acc)
    ensures DecodeEntries(e, acc, 0, b) == Ok((acc, b))
  {
    hide Has;
  }

  /** Reading one pair of a map stores its value under its key and goes on behind it. */
  lemma {:induction false} EntriesStep(
      e: Type, acc: seq<Entry>, n: nat, b: bytes, key: bytes, rest: bytes, value: Value, rest': bytes)
    requires EntriesOk(e, acc) && n > 0 && ReadStr(b) == Ok((key, rest))
    requires Decode(e, Zero(e), rest) == Ok((value, rest'))
    ensures EntriesOk(e, Put(acc, key, value))
    ensures DecodeEntries(e, acc, n, b) == DecodeEntries(e, Put(acc, key, value), n - 1, rest')
  {
    hide ReadStr, Has, Decode, Zero, Put;
    PutOk(e, acc, key, value);
  }

  lemma {:induction false} StillUnnamed(acc: seq<Entry>, key: bytes, value: Value, kids: seq<Obj>)
    requires Distinct(acc) && |kids| >= 2 && !Named(kids[2..], key) && forall x <- acc :: !Named(kids, x.key)
    ensures forall x <- Put(acc, key, value) :: !Named(kids[2..], x.key)
  {
    PutEntries(acc, key, value);
  }

  lemma CollectsNone(acc: seq<Entry>, es: seq<Entry>)
    requires Gathers(acc, es)
    ensures Collects(acc, [], es, acc)
  {
    hide Gathers;
  }

  lemma {:induction false} DecodeEntriesDenoted(e: Type, acc: seq<Entry>, kids: seq<Obj>, es: seq<Entry>, tail: bytes)
    requires e.Ok() && EntriesOk(e, acc) && EntriesOk(e, es) && AllValid(kids) && DenotesEntries(e, kids, es)
    requires Gathers(acc, es) && |kids| % 2 == 0
    requires forall x <- acc :: !Named(kids, x.key)
    ensures var r := DecodeEntries(e, acc, |kids| / 2, BytesAll(kids) + tail);
            r.Ok? && r.value.1 == tail && Collects(acc, kids, es, r.value.0)
    decreases e, 3, |kids|
  {
    hide ReadHead, Head.Bytes, Head.Valid, ReadStr, Has, Same, Denotes, Decode, DecodeEntries, Zero, Gathers, BytesAll;
    hide Put, Collects, Named, DenotesEntries;
    if kids == [] {
      NoBytes(tail);
      NoPairsLeft(e, acc, tail);
      CollectsNone(acc, es);
    } else {
      var j := FirstEntry(e, kids, es);
      var key, rest := kids[0].head.s, BytesAll(kids[2..]) + tail;
      ReadPair(kids, tail);
      DecodeDenoted(e, Zero(e), kids[1], es[j].value, rest);
      var value := Decode(e, Zero(e), kids[1].Bytes() + rest).value.0;
      EntriesStep(e, acc, |kids| / 2, BytesAll(kids) + tail, key, kids[1].Bytes() + rest, value, rest);
      Unmentioned(acc, kids);
      GathersOne(e, acc, es, es[j], value);
      StillUnnamed(acc, key, value, kids);
      DecodeEntriesDenoted(e, Put(acc, key, value), kids[2..], es, tail);
      CollectsOne(acc, Entry(key, value), kids, es, DecodeEntries(e, acc, |kids| / 2, BytesAll(kids) + tail).value.0);
    }
  }

  lemma {:induction false} DecodeFieldsDenoted(
    fs: seq<Field>, zs: seq<Value>, seen: set<nat>, kids: seq<Obj>, vs: seq<Value>, tail: bytes)
    requires FieldsOk(fs) && HasFields(fs, zs) && HasFields(fs, vs) && AllValid(kids) && DenotesFields(fs, kids, vs)
    requires |kids| % 2 == 0 && forall i :: 0 <= i < |fs| && i in seen ==> Same(vs[i], zs[i])
    ensures var r := DecodeFields(fs, zs, seen, |kids| / 2, BytesAll(kids) + tail);
            && r.Ok? && r.value.2 == tail
            && forall i :: 0 <= i < |fs| ==>
              && (i in r.value.1 <==> i in seen || Named(kids, fs[i].name))
              && (i in r.value.1 ==> Same(vs[i], r.value.0[i]))
    decreases fs, 3, |kids|
  {
    hide ReadHead, Head.Bytes, Head.Valid, ReadStr, Has, Same, Denotes, Decode, BytesAll, Skip, IndexOf;
    if kids == [] {
      NoBytes(tail);
    } else {
      var key, rest := kids[0].head.s, BytesAll(kids[2..]) + tail;
      ReadPair(kids, tail);
      var i := IndexOf(fs, key);
      if i == |fs| {
        SkipObject(kids[1], rest);
        DecodeFieldsDenoted(fs, zs, seen, kids[2..], vs, tail);
      } else {
        DecodeDenoted(fs[i].typ, zs[i], kids[1], vs[i], rest);
        var v := Decode(fs[i].typ, zs[i], kids[1].Bytes() + rest).value.0;
        DecodeFieldsDenoted(fs, zs[i := v], seen + {i}, kids[2..], vs, tail);
      }
    }
  }
}
